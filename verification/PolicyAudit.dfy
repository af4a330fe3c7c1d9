/** The full-plan audit of a semantic policy: worst-case bounds over exact realizations, the
    unrestricted upper envelope over all ground actions, and what a certificate guarantees. */
module PolicyAudit {
  import opened CellModels
  import opened Extrema
  import opened FiniteSums
  import opened Outcomes
  import opened Realizations
  import opened Symmetry

  // ---- Worst-case bounds of the lifted policy ---------------------------------------------

  /** The audit reaches a bound: the selected semantic action is available at every active
      member, now and along every continuation. */
  ghost predicate Auditable<S(!new), A, F, C, L>(
      m: Model<S, A, F, C, L>, sigma: SemanticPolicy<C, L>, h: nat, c: C)
  {
    h == 0
    || forall x {:trigger m.cell(x)} | x in Active(m, c) ::
         && sigma(h, c) in m.labels(x)
         && forall d | d in EnteredCells(m, m.kernel.step(x, m.concretize(x, sigma(h, c)))) ::
              Auditable(m, sigma, h - 1, d)
  }

  ghost function LowerAt<S, A, F, C, L>(m: Model<S, A, F, C, L>, l: L, v: C -> real): S -> real {
    x => if m.kernel.terminal(x) then 0.0 else StepReward(Realize(m, x, l), Cells(m), v)
  }

  ghost function RewardLower<S, A, F, C, L>(
      m: Model<S, A, F, C, L>, sigma: SemanticPolicy<C, L>, h: nat, c: C): real
  {
    if h == 0 || Active(m, c) == {} then 0.0
    else
      assert Active(m, c) <= Members(m, c);
      MinOver(Members(m, c), LowerAt(m, sigma(h, c), d => RewardLower(m, sigma, h - 1, d)))
  }

  ghost function RiskAt<S, A, F, C, L>(m: Model<S, A, F, C, L>, l: L, v: C -> real): S -> real {
    x => if m.kernel.terminal(x) then 0.0 else StepFailure(Realize(m, x, l), Cells(m), v)
  }

  ghost function FailureUpper<S, A, F, C, L>(
      m: Model<S, A, F, C, L>, sigma: SemanticPolicy<C, L>, h: nat, c: C): real
  {
    if h == 0 || Active(m, c) == {} then 0.0
    else
      assert Active(m, c) <= Members(m, c);
      MaxOver(Members(m, c), RiskAt(m, sigma(h, c), d => FailureUpper(m, sigma, h - 1, d)))
  }

  /** The bounds bracket the lifted policy at every covered state with horizon `h`. */
  ghost predicate BoundsHold<S(!new), A, F, C, L>(
      m: Model<S, A, F, C, L>, sigma: SemanticPolicy<C, L>, h: nat)
  {
    forall x {:trigger m.cell(x)} | x in m.states && Auditable(m, sigma, h, m.cell(x)) ::
      && RewardLower(m, sigma, h, m.cell(x)) <= Reward(m.kernel, m.weight, Lift(m, sigma), h, x)
      && Failure(m.kernel, Lift(m, sigma), h, x) <= FailureUpper(m, sigma, h, m.cell(x))
  }

  lemma TerminalBounds<S(!new), A, F, C, L>(
      m: Model<S, A, F, C, L>, sigma: SemanticPolicy<C, L>, h: nat, x: S)
    requires x in m.states && (h == 0 || m.kernel.terminal(x))
    ensures RewardLower(m, sigma, h, m.cell(x)) <= 0.0 <= FailureUpper(m, sigma, h, m.cell(x))
  {
    var c := m.cell(x);
    if h > 0 && Active(m, c) != {} {
      assert x in Members(m, c);
      MinIsLowerBound(Members(m, c), LowerAt(m, sigma(h, c), d => RewardLower(m, sigma, h - 1, d)), x);
      MaxIsUpperBound(Members(m, c), RiskAt(m, sigma(h, c), d => FailureUpper(m, sigma, h - 1, d)), x);
    }
  }

  /** One audited step: exact values dominate the step taken with bounds for the continuation. */
  lemma AuditedStep<S(!new), A(!new), F, C(!new), L(!new)>(
      m: Model<S, A, F, C, L>, sigma: SemanticPolicy<C, L>, h: nat, x: S)
    requires WellFormed(m) && BoundsHold(m, sigma, h)
    requires x in m.states && !m.kernel.terminal(x) && Auditable(m, sigma, h + 1, m.cell(x))
    ensures var l := sigma(h + 1, m.cell(x));
            && StepReward(Realize(m, x, l), Cells(m), d => RewardLower(m, sigma, h, d))
               <= Reward(m.kernel, m.weight, Lift(m, sigma), h + 1, x)
            && Failure(m.kernel, Lift(m, sigma), h + 1, x)
               <= StepFailure(Realize(m, x, l), Cells(m), d => FailureUpper(m, sigma, h, d))
  {
    hide SumOver, Realize, StepReward, StepFailure;
    var pi, c := Lift(m, sigma), m.cell(x);
    assert x in Active(m, c);
    var l := sigma(h + 1, c);
    var os := m.kernel.step(x, m.concretize(x, l));
    var lower, upper := d => RewardLower(m, sigma, h, d), d => FailureUpper(m, sigma, h, d);
    RealizedStep(m, x, l, lower);
    RealizedStep(m, x, l, upper);
    var reward, failure := y => Reward(m.kernel, m.weight, pi, h, y), y => Failure(m.kernel, pi, h, y);
    forall i | 0 <= i < |os|
      ensures RewardBranch(m.kernel, m.weight, y => lower(m.cell(y)))(os[i].atom)
           <= RewardBranch(m.kernel, m.weight, reward)(os[i].atom)
      ensures FailureBranch(m.kernel, failure)(os[i].atom)
           <= FailureBranch(m.kernel, y => upper(m.cell(y)))(os[i].atom)
    {
      var atom := os[i].atom;
      if !Stopped(m.kernel, atom) {
        assert atom.next in m.states;
        assert m.cell(atom.next) in EnteredCells(m, os);
      }
    }
    assert Positive(os);
    ExpectMonotone(os, RewardBranch(m.kernel, m.weight, y => lower(m.cell(y))),
                   RewardBranch(m.kernel, m.weight, reward));
    ExpectMonotone(os, FailureBranch(m.kernel, failure), FailureBranch(m.kernel, y => upper(m.cell(y))));
  }

  lemma BoundsAt<S(!new), A(!new), F, C(!new), L(!new)>(
      m: Model<S, A, F, C, L>, sigma: SemanticPolicy<C, L>, h: nat, x: S)
    requires WellFormed(m) && BoundsHold(m, sigma, h)
    requires x in m.states && Auditable(m, sigma, h + 1, m.cell(x))
    ensures RewardLower(m, sigma, h + 1, m.cell(x)) <= Reward(m.kernel, m.weight, Lift(m, sigma), h + 1, x)
    ensures Failure(m.kernel, Lift(m, sigma), h + 1, x) <= FailureUpper(m, sigma, h + 1, m.cell(x))
  {
    hide SumOver, Realize, StepReward, StepFailure;
    var c := m.cell(x);
    if m.kernel.terminal(x) {
      TerminalBounds(m, sigma, h + 1, x);
    } else {
      AuditedStep(m, sigma, h, x);
      assert x in Active(m, c) && x in Members(m, c);
      MinIsLowerBound(Members(m, c), LowerAt(m, sigma(h + 1, c), d => RewardLower(m, sigma, h, d)), x);
      MaxIsUpperBound(Members(m, c), RiskAt(m, sigma(h + 1, c), d => FailureUpper(m, sigma, h, d)), x);
    }
  }

  lemma BoundsLevel<S(!new), A(!new), F, C(!new), L(!new)>(
      m: Model<S, A, F, C, L>, sigma: SemanticPolicy<C, L>, h: nat, n: nat)
    requires WellFormed(m) && BoundsHold(m, sigma, h) && n == h + 1
    ensures BoundsHold(m, sigma, n)
  {
    hide WellFormed, Auditable, Reward, Failure, RewardLower, FailureUpper, Lift;
    forall x | x in m.states && Auditable(m, sigma, n, m.cell(x))
      ensures RewardLower(m, sigma, n, m.cell(x)) <= Reward(m.kernel, m.weight, Lift(m, sigma), n, x)
      ensures Failure(m.kernel, Lift(m, sigma), n, x) <= FailureUpper(m, sigma, n, m.cell(x))
    {
      BoundsAt(m, sigma, h, x);
    }
  }

  lemma BoundsStart<S(!new), A(!new), F, C(!new), L(!new)>(m: Model<S, A, F, C, L>, sigma: SemanticPolicy<C, L>)
    ensures BoundsHold(m, sigma, 0)
  {
  }

  /** Soundness of the audit recursion at every horizon. */
  lemma AuditBoundsAreSound<S(!new), A(!new), F, C(!new), L(!new)>(
      m: Model<S, A, F, C, L>, sigma: SemanticPolicy<C, L>, h: nat)
    requires WellFormed(m)
    ensures BoundsHold(m, sigma, h)
  {
    hide WellFormed, BoundsHold;
    var j: nat := 0;
    BoundsStart(m, sigma);
    while j < h
      invariant j <= h && BoundsHold(m, sigma, j)
    {
      BoundsLevel(m, sigma, j, j + 1);
      j := j + 1;
    }
  }

  // ---- The unrestricted upper envelope ----------------------------------------------------

  ghost function ActionValue<S, A, F, C, L>(m: Model<S, A, F, C, L>, x: S, v: C -> real): A -> real {
    a => Expect(m.kernel.step(x, a), RewardBranch(m.kernel, m.weight, y => v(m.cell(y))))
  }

  ghost function UpperAt<S, A, F, C, L>(m: Model<S, A, F, C, L>, v: C -> real): S -> real {
    x => if m.kernel.terminal(x) || m.kernel.actions(x) == {} then 0.0
         else MaxOver(m.kernel.actions(x), ActionValue(m, x, v))
  }

  /** The largest one-step value over every member and every ground action. */
  ghost function RewardUpper<S, A, F, C, L>(m: Model<S, A, F, C, L>, h: nat, c: C): real {
    if h == 0 || Members(m, c) == {} then 0.0
    else MaxOver(Members(m, c), UpperAt(m, d => RewardUpper(m, h - 1, d)))
  }

  ghost predicate LegalOn<S(!new), A, F, C, L>(m: Model<S, A, F, C, L>, pi: Policy<S, A>) {
    forall h: nat, x {:trigger pi(h, x)} | x in m.states && !Idle(m.kernel, h, x) ::
      pi(h, x) in m.kernel.actions(x)
  }

  ghost predicate UpperHolds<S(!new), A, F, C, L>(m: Model<S, A, F, C, L>, pi: Policy<S, A>, h: nat) {
    forall x {:trigger m.cell(x)} | x in m.states ::
      Reward(m.kernel, m.weight, pi, h, x) <= RewardUpper(m, h, m.cell(x))
  }

  /** A legal step with the envelope for a continuation is worth at least the policy's own. */
  lemma UpperStep<S(!new), A(!new), F, C(!new), L(!new)>(
      m: Model<S, A, F, C, L>, pi: Policy<S, A>, h: nat, x: S, v: C -> real)
    requires WellFormed(m) && LegalOn(m, pi) && x in m.states && !Idle(m.kernel, h + 1, x)
    requires forall y {:trigger m.cell(y)} | y in m.states :: Reward(m.kernel, m.weight, pi, h, y) <= v(m.cell(y))
    ensures Reward(m.kernel, m.weight, pi, h + 1, x) <= ActionValue(m, x, v)(pi(h + 1, x))
  {
    var a := pi(h + 1, x);
    var os := m.kernel.step(x, a);
    var reward: S -> real := y => Reward(m.kernel, m.weight, pi, h, y);
    forall i | 0 <= i < |os|
      ensures RewardBranch(m.kernel, m.weight, reward)(os[i].atom)
           <= RewardBranch(m.kernel, m.weight, y => v(m.cell(y)))(os[i].atom)
    {
      assert !Stopped(m.kernel, os[i].atom) ==> os[i].atom.next in m.states;
    }
    ExpectMonotone(os, RewardBranch(m.kernel, m.weight, reward), RewardBranch(m.kernel, m.weight, y => v(m.cell(y))));
  }

  lemma UpperAtState<S(!new), A(!new), F, C(!new), L(!new)>(
      m: Model<S, A, F, C, L>, pi: Policy<S, A>, h: nat, x: S)
    requires WellFormed(m) && LegalOn(m, pi) && UpperHolds(m, pi, h) && x in m.states
    ensures Reward(m.kernel, m.weight, pi, h + 1, x) <= RewardUpper(m, h + 1, m.cell(x))
  {
    hide WellFormed, ActionValue, Reward, MaxOver;
    var c, v := m.cell(x), (d: C) => RewardUpper(m, h, d);
    assert x in Members(m, c);
    MaxIsUpperBound(Members(m, c), UpperAt(m, v), x);
    if Idle(m.kernel, h + 1, x) {
      IdleReward(m, pi, h + 1, x);
    } else {
      MaxIsUpperBound(m.kernel.actions(x), ActionValue(m, x, v), pi(h + 1, x));
      UpperStep(m, pi, h, x, v);
    }
  }

  lemma IdleReward<S, A, F, C, L>(m: Model<S, A, F, C, L>, pi: Policy<S, A>, h: nat, x: S)
    requires Idle(m.kernel, h, x)
    ensures Reward(m.kernel, m.weight, pi, h, x) == 0.0
  {
  }

  lemma UpperLevel<S(!new), A(!new), F, C(!new), L(!new)>(
      m: Model<S, A, F, C, L>, pi: Policy<S, A>, h: nat, n: nat)
    requires WellFormed(m) && LegalOn(m, pi) && UpperHolds(m, pi, h) && n == h + 1
    ensures UpperHolds(m, pi, n)
  {
    hide WellFormed, LegalOn, Reward, RewardUpper;
    forall x | x in m.states
      ensures Reward(m.kernel, m.weight, pi, n, x) <= RewardUpper(m, n, m.cell(x))
    {
      UpperAtState(m, pi, h, x);
    }
  }

  lemma UpperStart<S(!new), A(!new), F, C(!new), L(!new)>(m: Model<S, A, F, C, L>, pi: Policy<S, A>)
    ensures UpperHolds(m, pi, 0)
  {
  }

  /** No legal ground policy earns more than the unrestricted upper envelope. */
  lemma UpperEnvelopeIsSound<S(!new), A(!new), F, C(!new), L(!new)>(
      m: Model<S, A, F, C, L>, pi: Policy<S, A>, h: nat)
    requires WellFormed(m) && LegalOn(m, pi)
    ensures UpperHolds(m, pi, h)
  {
    hide WellFormed, LegalOn, UpperHolds;
    var j: nat := 0;
    UpperStart(m, pi);
    while j < h
      invariant j <= h && UpperHolds(m, pi, j)
    {
      UpperLevel(m, pi, j, j + 1);
      j := j + 1;
    }
  }

  // ---- Certificates -----------------------------------------------------------------------

  datatype Query<S> = Query(initial: seq<(real, S)>, horizon: nat, delta: real, tolerance: real)

  ghost function AtRoot<S>(initial: seq<(real, S)>, f: S -> real): real {
    if |initial| == 0 then 0.0 else initial[0].0 * f(initial[0].1) + AtRoot(initial[1..], f)
  }

  ghost predicate ValidQuery<S, A, F, C, L>(m: Model<S, A, F, C, L>, q: Query<S>) {
    forall i | 0 <= i < |q.initial| :: q.initial[i].0 > 0.0 && q.initial[i].1 in m.states
  }

  /** The audit's verdict: complete, small enough regret bound, small enough risk bound. */
  ghost predicate Certified<S(!new), A, F, C, L>(
      m: Model<S, A, F, C, L>, sigma: SemanticPolicy<C, L>, q: Query<S>)
  {
    && (forall i | 0 <= i < |q.initial| :: Auditable(m, sigma, q.horizon, m.cell(q.initial[i].1)))
    && AtRoot(q.initial, x => RewardUpper(m, q.horizon, m.cell(x)))
       - AtRoot(q.initial, x => RewardLower(m, sigma, q.horizon, m.cell(x))) <= q.tolerance
    && AtRoot(q.initial, x => FailureUpper(m, sigma, q.horizon, m.cell(x))) <= q.delta
  }

  /** Root values are weighted by the initial probabilities and add up. */
  lemma {:induction false} AtRootAdds<S>(first: seq<(real, S)>, rest: seq<(real, S)>, p: real, x: S, f: S -> real)
    ensures AtRoot(first + rest, f) == AtRoot(first, f) + AtRoot(rest, f)
    ensures AtRoot([(p, x)], f) == p * f(x)
    decreases |first|
  {
    assert [(p, x)][1..] == [];
    if |first| == 0 {
      assert first + rest == rest;
    } else {
      assert (first + rest)[1..] == first[1..] + rest;
      AtRootAdds(first[1..], rest, p, x, f);
    }
  }

  lemma {:induction false} AtRootMonotone<S>(initial: seq<(real, S)>, f: S -> real, g: S -> real)
    requires forall i | 0 <= i < |initial| :: initial[i].0 > 0.0 && f(initial[i].1) <= g(initial[i].1)
    ensures AtRoot(initial, f) <= AtRoot(initial, g)
  {
    if |initial| > 0 {
      assert forall i | 0 <= i < |initial[1..]| :: initial[1..][i] == initial[i + 1];
      AtRootMonotone(initial[1..], f, g);
      ScaleMonotone(initial[0].0, f(initial[0].1), g(initial[0].1));
    }
  }

  /** What a certificate means: no ground policy beats the lifted policy by more than the regret
      tolerance, and the lifted policy's true failure probability is within the risk budget. */
  lemma CertificateIsSound<S(!new), A(!new), F, C(!new), L(!new)>(
      m: Model<S, A, F, C, L>, sigma: SemanticPolicy<C, L>, q: Query<S>, rival: Policy<S, A>)
    requires WellFormed(m) && ValidQuery(m, q) && Certified(m, sigma, q) && LegalOn(m, rival)
    ensures AtRoot(q.initial, x => Reward(m.kernel, m.weight, rival, q.horizon, x))
            - AtRoot(q.initial, x => Reward(m.kernel, m.weight, Lift(m, sigma), q.horizon, x)) <= q.tolerance
    ensures AtRoot(q.initial, x => Failure(m.kernel, Lift(m, sigma), q.horizon, x)) <= q.delta
  {
    var h, pi := q.horizon, Lift(m, sigma);
    AuditBoundsAreSound(m, sigma, h);
    UpperEnvelopeIsSound(m, rival, h);
    AtRootMonotone(q.initial, x => Reward(m.kernel, m.weight, rival, h, x), x => RewardUpper(m, h, m.cell(x)));
    AtRootMonotone(q.initial, x => RewardLower(m, sigma, h, m.cell(x)), x => Reward(m.kernel, m.weight, pi, h, x));
    AtRootMonotone(q.initial, x => Failure(m.kernel, pi, h, x), x => FailureUpper(m, sigma, h, m.cell(x)));
  }
}
