/** What the audit's bounds mean on every partition.  A resolution replaces the current state by a
    member of its cell at every step: the failure bound is the largest failure probability over all
    resolutions, the reward bound the smallest reward, and the unrestricted envelope the largest
    reward over all resolutions and all legal actions. */
module AuditWorstCase {
  import opened CellModels
  import opened Extrema
  import opened FiniteSums
  import opened Outcomes
  import opened PolicyAudit
  import opened Realizations
  import opened Symmetry

  /** The member that acts for a cell when a number of steps remain. */
  type Resolution<!S, !C> = (nat, C) -> S

  ghost predicate Resolves<S, A, F, C(!new), L>(m: Model<S, A, F, C, L>, chi: Resolution<S, C>) {
    forall h: nat, c {:trigger chi(h, c)} | c in Cells(m) :: chi(h, c) in Members(m, c)
  }

  /** Failure probability of the semantic policy when `chi` picks the member at every step. */
  ghost function ResolvedFailure<S, A, F, C, L>(
      m: Model<S, A, F, C, L>, sigma: SemanticPolicy<C, L>, chi: Resolution<S, C>, h: nat, c: C): real
  {
    if h == 0 || c !in Cells(m) || m.kernel.terminal(chi(h, c)) then 0.0
    else Expect(m.kernel.step(chi(h, c), m.concretize(chi(h, c), sigma(h, c))),
                FailureBranch(m.kernel, y => ResolvedFailure(m, sigma, chi, h - 1, m.cell(y))))
  }

  ghost function ResolvedReward<S, A, F, C, L>(
      m: Model<S, A, F, C, L>, sigma: SemanticPolicy<C, L>, chi: Resolution<S, C>, h: nat, c: C): real
  {
    if h == 0 || c !in Cells(m) || m.kernel.terminal(chi(h, c)) then 0.0
    else Expect(m.kernel.step(chi(h, c), m.concretize(chi(h, c), sigma(h, c))),
                RewardBranch(m.kernel, m.weight, y => ResolvedReward(m, sigma, chi, h - 1, m.cell(y))))
  }

  ghost function LowerAhead<S, A, F, C, L>(m: Model<S, A, F, C, L>, sigma: SemanticPolicy<C, L>, h: nat): C -> real {
    d => RewardLower(m, sigma, h, d)
  }

  ghost function RiskBoundAhead<S, A, F, C, L>(m: Model<S, A, F, C, L>, sigma: SemanticPolicy<C, L>, h: nat): C -> real {
    d => FailureUpper(m, sigma, h, d)
  }

  /** The bounds of a cell with horizon left, with their continuations under a name. */
  lemma BoundsOfCell<S, A, F, C, L>(m: Model<S, A, F, C, L>, sigma: SemanticPolicy<C, L>, h: nat, c: C, x: S)
    requires h > 0 && x in Members(m, c)
    ensures Active(m, c) == {} ==> m.kernel.terminal(x) && RewardLower(m, sigma, h, c) == FailureUpper(m, sigma, h, c) == 0.0
    ensures Active(m, c) != {} ==>
              && RewardLower(m, sigma, h, c) == MinOver(Members(m, c), LowerAt(m, sigma(h, c), LowerAhead(m, sigma, h - 1)))
              && FailureUpper(m, sigma, h, c) == MaxOver(Members(m, c), RiskAt(m, sigma(h, c), RiskBoundAhead(m, sigma, h - 1)))
  {
    hide MinOver, MaxOver, LowerAt, RiskAt;
    if Active(m, c) == {} {
      assert !m.kernel.terminal(x) ==> x in Active(m, c);
    } else {
      assert LowerAhead(m, sigma, h - 1) == (d => RewardLower(m, sigma, h - 1, d));
      assert RiskBoundAhead(m, sigma, h - 1) == (d => FailureUpper(m, sigma, h - 1, d));
    }
  }

  /** A resolved continuation that relates to the bounds at every auditable cell of a level. */
  ghost predicate Within<S(!new), A, F, C(!new), L>(
      m: Model<S, A, F, C, L>, sigma: SemanticPolicy<C, L>, chi: Resolution<S, C>, h: nat)
  {
    forall c {:trigger Auditable(m, sigma, h, c)} | c in Cells(m) && Auditable(m, sigma, h, c) ::
      && RewardLower(m, sigma, h, c) <= ResolvedReward(m, sigma, chi, h, c)
      && ResolvedFailure(m, sigma, chi, h, c) <= FailureUpper(m, sigma, h, c)
  }

  /** Bounding continuations bound the step of the chosen member. */
  lemma ResolvedStep<S(!new), A(!new), F, C(!new), L(!new)>(
      m: Model<S, A, F, C, L>, sigma: SemanticPolicy<C, L>, chi: Resolution<S, C>, h: nat, c: C)
    requires WellFormed(m) && Resolves(m, chi) && Within(m, sigma, chi, h)
    requires c in Cells(m) && Auditable(m, sigma, h + 1, c) && !m.kernel.terminal(chi(h + 1, c))
    ensures var x, l := chi(h + 1, c), sigma(h + 1, c);
            && StepReward(Realize(m, x, l), Cells(m), LowerAhead(m, sigma, h)) <= ResolvedReward(m, sigma, chi, h + 1, c)
            && ResolvedFailure(m, sigma, chi, h + 1, c) <= StepFailure(Realize(m, x, l), Cells(m), RiskBoundAhead(m, sigma, h))
  {
    hide SumOver, Realize, StepReward, StepFailure, RewardLower, FailureUpper;
    var x, l := chi(h + 1, c), sigma(h + 1, c);
    assert x in Members(m, c) && x in Active(m, c);
    var os := m.kernel.step(x, m.concretize(x, l));
    var lower, upper := LowerAhead(m, sigma, h), RiskBoundAhead(m, sigma, h);
    RealizedStep(m, x, l, lower);
    RealizedStep(m, x, l, upper);
    var reward: S -> real := y => ResolvedReward(m, sigma, chi, h, m.cell(y));
    var failure: S -> real := y => ResolvedFailure(m, sigma, chi, h, m.cell(y));
    forall i | 0 <= i < |os|
      ensures RewardBranch(m.kernel, m.weight, y => lower(m.cell(y)))(os[i].atom)
           <= RewardBranch(m.kernel, m.weight, reward)(os[i].atom)
      ensures FailureBranch(m.kernel, failure)(os[i].atom)
           <= FailureBranch(m.kernel, y => upper(m.cell(y)))(os[i].atom)
    {
      var atom := os[i].atom;
      if !Stopped(m.kernel, atom) {
        assert m.cell(atom.next) in EnteredCells(m, os) && m.cell(atom.next) in Cells(m);
        assert Auditable(m, sigma, h, m.cell(atom.next));
      }
    }
    ExpectMonotone(os, RewardBranch(m.kernel, m.weight, y => lower(m.cell(y))), RewardBranch(m.kernel, m.weight, reward));
    ExpectMonotone(os, FailureBranch(m.kernel, failure), FailureBranch(m.kernel, y => upper(m.cell(y))));
  }

  lemma WithinAt<S(!new), A(!new), F, C(!new), L(!new)>(
      m: Model<S, A, F, C, L>, sigma: SemanticPolicy<C, L>, chi: Resolution<S, C>, h: nat, c: C)
    requires WellFormed(m) && Resolves(m, chi) && Within(m, sigma, chi, h)
    requires c in Cells(m) && Auditable(m, sigma, h + 1, c)
    ensures RewardLower(m, sigma, h + 1, c) <= ResolvedReward(m, sigma, chi, h + 1, c)
    ensures ResolvedFailure(m, sigma, chi, h + 1, c) <= FailureUpper(m, sigma, h + 1, c)
  {
    hide Within, WellFormed, Realize, StepReward, StepFailure, RewardLower, FailureUpper, MinOver, MaxOver, LowerAhead, RiskBoundAhead, Auditable;
    var x, l := chi(h + 1, c), sigma(h + 1, c);
    BoundsOfCell(m, sigma, h + 1, c, x);
    if Active(m, c) != {} {
      MinIsLowerBound(Members(m, c), LowerAt(m, l, LowerAhead(m, sigma, h)), x);
      MaxIsUpperBound(Members(m, c), RiskAt(m, l, RiskBoundAhead(m, sigma, h)), x);
    }
    if !m.kernel.terminal(x) {
      ResolvedStep(m, sigma, chi, h, c);
    }
  }

  lemma WithinLevel<S(!new), A(!new), F, C(!new), L(!new)>(
      m: Model<S, A, F, C, L>, sigma: SemanticPolicy<C, L>, chi: Resolution<S, C>, h: nat, n: nat)
    requires WellFormed(m) && Resolves(m, chi) && Within(m, sigma, chi, h) && n == h + 1
    ensures Within(m, sigma, chi, n)
  {
    hide WellFormed, Resolves, Auditable, RewardLower, FailureUpper, ResolvedReward, ResolvedFailure;
    forall c | c in Cells(m) && Auditable(m, sigma, n, c)
      ensures RewardLower(m, sigma, n, c) <= ResolvedReward(m, sigma, chi, n, c)
      ensures ResolvedFailure(m, sigma, chi, n, c) <= FailureUpper(m, sigma, n, c)
    {
      WithinAt(m, sigma, chi, h, c);
    }
  }

  lemma WithinStart<S(!new), A(!new), F, C(!new), L(!new)>(
      m: Model<S, A, F, C, L>, sigma: SemanticPolicy<C, L>, chi: Resolution<S, C>)
    ensures Within(m, sigma, chi, 0)
  {
  }

  /** Every resolution stays within the bounds, at every horizon. */
  lemma {:induction false} ResolutionsStayWithin<S(!new), A(!new), F, C(!new), L(!new)>(
      m: Model<S, A, F, C, L>, sigma: SemanticPolicy<C, L>, chi: Resolution<S, C>, h: nat)
    requires WellFormed(m) && Resolves(m, chi)
    ensures Within(m, sigma, chi, h)
    decreases h
  {
    hide *;
    if h == 0 {
      WithinStart(m, sigma, chi);
    } else {
      ResolutionsStayWithin(m, sigma, chi, h - 1);
      WithinLevel(m, sigma, chi, h - 1, h);
    }
  }

  // ---- The bounds are attained ------------------------------------------------------------

  ghost function AnyMember<S, A, F, C, L>(m: Model<S, A, F, C, L>, c: C, x0: S): (x: S)
    ensures Members(m, c) != {} ==> x in Members(m, c)
  {
    if Members(m, c) == {} then x0
    else
      var x :| x in Members(m, c);
      x
  }

  /** The member with the largest audited risk; `x0` stands in where there is no member. */
  ghost function Riskiest<S, A, F, C, L>(m: Model<S, A, F, C, L>, sigma: SemanticPolicy<C, L>, x0: S): Resolution<S, C> {
    (h: nat, c: C) =>
      if h == 0 || Members(m, c) == {} then AnyMember(m, c, x0)
      else MaximumWitness(Members(m, c), RiskAt(m, sigma(h, c), RiskBoundAhead(m, sigma, h - 1)))
  }

  ghost function Poorest<S, A, F, C, L>(m: Model<S, A, F, C, L>, sigma: SemanticPolicy<C, L>, x0: S): Resolution<S, C> {
    (h: nat, c: C) =>
      if h == 0 || Members(m, c) == {} then AnyMember(m, c, x0)
      else MinimumWitness(Members(m, c), LowerAt(m, sigma(h, c), LowerAhead(m, sigma, h - 1)))
  }

  lemma CellHasMember<S, A, F, C, L>(m: Model<S, A, F, C, L>, c: C)
    requires c in Cells(m)
    ensures Members(m, c) != {}
  {
    var x :| x in m.states && m.cell(x) == c;
    assert x in Members(m, c);
  }

  lemma WorstMembersResolve<S, A, F, C(!new), L>(m: Model<S, A, F, C, L>, sigma: SemanticPolicy<C, L>, x0: S)
    ensures Resolves(m, Riskiest(m, sigma, x0)) && Resolves(m, Poorest(m, sigma, x0))
  {
    hide Members, Cells, RiskAt, LowerAt, AnyMember;
    forall h: nat, c | c in Cells(m)
      ensures Riskiest(m, sigma, x0)(h, c) in Members(m, c) && Poorest(m, sigma, x0)(h, c) in Members(m, c)
    {
      CellHasMember(m, c);
      if h > 0 {
        var poorest := MinimumWitness(Members(m, c), LowerAt(m, sigma(h, c), LowerAhead(m, sigma, h - 1)));
        var riskiest := MaximumWitness(Members(m, c), RiskAt(m, sigma(h, c), RiskBoundAhead(m, sigma, h - 1)));
        assert Poorest(m, sigma, x0)(h, c) == poorest && Riskiest(m, sigma, x0)(h, c) == riskiest;
      } else {
        var any := AnyMember(m, c, x0);
        assert Poorest(m, sigma, x0)(h, c) == Riskiest(m, sigma, x0)(h, c) == any;
      }
    }
  }

  ghost predicate RiskAttained<S(!new), A, F, C(!new), L>(
      m: Model<S, A, F, C, L>, sigma: SemanticPolicy<C, L>, x0: S, h: nat)
  {
    forall c {:trigger Auditable(m, sigma, h, c)} | c in Cells(m) && Auditable(m, sigma, h, c) ::
      ResolvedFailure(m, sigma, Riskiest(m, sigma, x0), h, c) == FailureUpper(m, sigma, h, c)
  }

  ghost predicate RewardAttained<S(!new), A, F, C(!new), L>(
      m: Model<S, A, F, C, L>, sigma: SemanticPolicy<C, L>, x0: S, h: nat)
  {
    forall c {:trigger Auditable(m, sigma, h, c)} | c in Cells(m) && Auditable(m, sigma, h, c) ::
      ResolvedReward(m, sigma, Poorest(m, sigma, x0), h, c) == RewardLower(m, sigma, h, c)
  }

  /** With bounds for continuations, a step of the member is a step of its realization. */
  lemma AttainedStep<S(!new), A(!new), F, C(!new), L(!new)>(
      m: Model<S, A, F, C, L>, sigma: SemanticPolicy<C, L>, x0: S, h: nat, c: C, x: S)
    requires WellFormed(m) && x in Active(m, c) && Auditable(m, sigma, h + 1, c)
    ensures var l, chi := sigma(h + 1, c), Riskiest(m, sigma, x0);
            RiskAttained(m, sigma, x0, h) ==>
            Expect(m.kernel.step(x, m.concretize(x, l)),
                   FailureBranch(m.kernel, y => ResolvedFailure(m, sigma, chi, h, m.cell(y))))
            == StepFailure(Realize(m, x, l), Cells(m), RiskBoundAhead(m, sigma, h))
    ensures var l, chi := sigma(h + 1, c), Poorest(m, sigma, x0);
            RewardAttained(m, sigma, x0, h) ==>
            Expect(m.kernel.step(x, m.concretize(x, l)),
                   RewardBranch(m.kernel, m.weight, y => ResolvedReward(m, sigma, chi, h, m.cell(y))))
            == StepReward(Realize(m, x, l), Cells(m), LowerAhead(m, sigma, h))
  {
    hide SumOver, Realize, StepReward, StepFailure, RewardLower, FailureUpper, ResolvedReward, ResolvedFailure, Riskiest, Poorest;
    var l := sigma(h + 1, c);
    var os := m.kernel.step(x, m.concretize(x, l));
    var lower, upper := LowerAhead(m, sigma, h), RiskBoundAhead(m, sigma, h);
    RealizedStep(m, x, l, lower);
    RealizedStep(m, x, l, upper);
    forall i | 0 <= i < |os| && !Stopped(m.kernel, os[i].atom)
      ensures m.cell(os[i].atom.next) in Cells(m) && Auditable(m, sigma, h, m.cell(os[i].atom.next))
    {
      assert m.cell(os[i].atom.next) in EnteredCells(m, os);
    }
    if RiskAttained(m, sigma, x0, h) {
      var failure: S -> real := y => ResolvedFailure(m, sigma, Riskiest(m, sigma, x0), h, m.cell(y));
      ExpectCongruent(os, FailureBranch(m.kernel, failure), FailureBranch(m.kernel, y => upper(m.cell(y))));
    }
    if RewardAttained(m, sigma, x0, h) {
      var reward: S -> real := y => ResolvedReward(m, sigma, Poorest(m, sigma, x0), h, m.cell(y));
      ExpectCongruent(os, RewardBranch(m.kernel, m.weight, reward), RewardBranch(m.kernel, m.weight, y => lower(m.cell(y))));
    }
  }

  lemma RiskAttainedAt<S(!new), A(!new), F, C(!new), L(!new)>(
      m: Model<S, A, F, C, L>, sigma: SemanticPolicy<C, L>, x0: S, h: nat, c: C)
    requires WellFormed(m) && RiskAttained(m, sigma, x0, h) && c in Cells(m) && Auditable(m, sigma, h + 1, c)
    ensures ResolvedFailure(m, sigma, Riskiest(m, sigma, x0), h + 1, c) == FailureUpper(m, sigma, h + 1, c)
  {
    hide WellFormed, Realize, StepFailure, FailureUpper, RiskBoundAhead, Auditable, RiskAttained, Cells;
    CellHasMember(m, c);
    var x, l := Riskiest(m, sigma, x0)(h + 1, c), sigma(h + 1, c);
    assert x == MaximumWitness(Members(m, c), RiskAt(m, l, RiskBoundAhead(m, sigma, h)));
    BoundsOfCell(m, sigma, h + 1, c, x);
    if !m.kernel.terminal(x) {
      AttainedStep(m, sigma, x0, h, c, x);
    }
  }

  lemma RewardAttainedAt<S(!new), A(!new), F, C(!new), L(!new)>(
      m: Model<S, A, F, C, L>, sigma: SemanticPolicy<C, L>, x0: S, h: nat, c: C)
    requires WellFormed(m) && RewardAttained(m, sigma, x0, h) && c in Cells(m) && Auditable(m, sigma, h + 1, c)
    ensures ResolvedReward(m, sigma, Poorest(m, sigma, x0), h + 1, c) == RewardLower(m, sigma, h + 1, c)
  {
    hide WellFormed, Realize, StepReward, RewardLower, MinOver, LowerAhead, Auditable, RewardAttained, Cells;
    CellHasMember(m, c);
    var x, l := Poorest(m, sigma, x0)(h + 1, c), sigma(h + 1, c);
    assert x == MinimumWitness(Members(m, c), LowerAt(m, l, LowerAhead(m, sigma, h)));
    BoundsOfCell(m, sigma, h + 1, c, x);
    if !m.kernel.terminal(x) {
      AttainedStep(m, sigma, x0, h, c, x);
    }
  }

  lemma AttainedLevel<S(!new), A(!new), F, C(!new), L(!new)>(
      m: Model<S, A, F, C, L>, sigma: SemanticPolicy<C, L>, x0: S, h: nat, n: nat)
    requires WellFormed(m) && RiskAttained(m, sigma, x0, h) && RewardAttained(m, sigma, x0, h) && n == h + 1
    ensures RiskAttained(m, sigma, x0, n) && RewardAttained(m, sigma, x0, n)
  {
    hide WellFormed, Auditable, RewardLower, FailureUpper, ResolvedReward, ResolvedFailure, Riskiest, Poorest;
    forall c | c in Cells(m) && Auditable(m, sigma, n, c)
      ensures ResolvedFailure(m, sigma, Riskiest(m, sigma, x0), n, c) == FailureUpper(m, sigma, n, c)
      ensures ResolvedReward(m, sigma, Poorest(m, sigma, x0), n, c) == RewardLower(m, sigma, n, c)
    {
      RiskAttainedAt(m, sigma, x0, h, c);
      RewardAttainedAt(m, sigma, x0, h, c);
    }
  }

  lemma AttainedStart<S(!new), A(!new), F, C(!new), L(!new)>(m: Model<S, A, F, C, L>, sigma: SemanticPolicy<C, L>, x0: S)
    ensures RiskAttained(m, sigma, x0, 0) && RewardAttained(m, sigma, x0, 0)
  {
  }

  lemma {:induction false} BoundsAreAttained<S(!new), A(!new), F, C(!new), L(!new)>(
      m: Model<S, A, F, C, L>, sigma: SemanticPolicy<C, L>, x0: S, h: nat)
    requires WellFormed(m)
    ensures RiskAttained(m, sigma, x0, h) && RewardAttained(m, sigma, x0, h)
    decreases h
  {
    hide *;
    if h == 0 {
      AttainedStart(m, sigma, x0);
    } else {
      BoundsAreAttained(m, sigma, x0, h - 1);
      AttainedLevel(m, sigma, x0, h - 1, h);
    }
  }

  /** On every partition the audited bounds of a cell are exactly the worst case over all
      resolutions: the largest failure probability and the smallest reward. */
  lemma BoundsAreWorstCase<S(!new), A(!new), F, C(!new), L(!new)>(
      m: Model<S, A, F, C, L>, sigma: SemanticPolicy<C, L>, h: nat, c: C)
    requires WellFormed(m) && c in Cells(m) && Auditable(m, sigma, h, c)
    ensures forall chi: Resolution<S, C> | Resolves(m, chi) ::
              && ResolvedFailure(m, sigma, chi, h, c) <= FailureUpper(m, sigma, h, c)
              && RewardLower(m, sigma, h, c) <= ResolvedReward(m, sigma, chi, h, c)
    ensures exists chi: Resolution<S, C> :: Resolves(m, chi) && ResolvedFailure(m, sigma, chi, h, c) == FailureUpper(m, sigma, h, c)
    ensures exists chi: Resolution<S, C> :: Resolves(m, chi) && ResolvedReward(m, sigma, chi, h, c) == RewardLower(m, sigma, h, c)
  {
    hide WellFormed, Resolves, Auditable, RewardLower, FailureUpper, ResolvedReward, ResolvedFailure;
    forall chi: Resolution<S, C> | Resolves(m, chi)
      ensures ResolvedFailure(m, sigma, chi, h, c) <= FailureUpper(m, sigma, h, c)
      ensures RewardLower(m, sigma, h, c) <= ResolvedReward(m, sigma, chi, h, c)
    {
      ResolutionsStayWithin(m, sigma, chi, h);
    }
    var x0 :| x0 in m.states && m.cell(x0) == c;
    WorstMembersResolve(m, sigma, x0);
    BoundsAreAttained(m, sigma, x0, h);
    var riskiest, poorest := Riskiest(m, sigma, x0), Poorest(m, sigma, x0);
    assert Resolves(m, riskiest) && ResolvedFailure(m, sigma, riskiest, h, c) == FailureUpper(m, sigma, h, c);
    assert Resolves(m, poorest) && ResolvedReward(m, sigma, poorest, h, c) == RewardLower(m, sigma, h, c);
  }

  // ---- The unrestricted envelope ----------------------------------------------------------

  type Chooser<!C, !A> = (nat, C) -> A

  /** Members and legal actions chosen freely at every step. */
  ghost predicate FreeChoice<S, A, F, C(!new), L>(m: Model<S, A, F, C, L>, chi: Resolution<S, C>, act: Chooser<C, A>) {
    && Resolves(m, chi)
    && forall h: nat, c {:trigger act(h, c)} | c in Cells(m) && !Idle(m.kernel, h, chi(h, c)) ::
         act(h, c) in m.kernel.actions(chi(h, c))
  }

  ghost function FreeReward<S, A, F, C, L>(
      m: Model<S, A, F, C, L>, chi: Resolution<S, C>, act: Chooser<C, A>, h: nat, c: C): real
  {
    if h == 0 || c !in Cells(m) || Idle(m.kernel, h, chi(h, c)) then 0.0
    else Expect(m.kernel.step(chi(h, c), act(h, c)),
                RewardBranch(m.kernel, m.weight, y => FreeReward(m, chi, act, h - 1, m.cell(y))))
  }

  ghost function UpperAhead<S, A, F, C, L>(m: Model<S, A, F, C, L>, h: nat): C -> real {
    d => RewardUpper(m, h, d)
  }

  lemma EnvelopeOfCell<S, A, F, C, L>(m: Model<S, A, F, C, L>, h: nat, c: C)
    requires h > 0 && Members(m, c) != {}
    ensures RewardUpper(m, h, c) == MaxOver(Members(m, c), UpperAt(m, UpperAhead(m, h - 1)))
  {
    hide MaxOver, UpperAt;
    assert UpperAhead(m, h - 1) == (d => RewardUpper(m, h - 1, d));
  }

  ghost predicate Enveloped<S, A, F, C(!new), L>(
      m: Model<S, A, F, C, L>, chi: Resolution<S, C>, act: Chooser<C, A>, h: nat)
  {
    forall c {:trigger c in Cells(m)} | c in Cells(m) :: FreeReward(m, chi, act, h, c) <= RewardUpper(m, h, c)
  }

  ghost predicate EnvelopeMet<S, A, F, C(!new), L>(
      m: Model<S, A, F, C, L>, chi: Resolution<S, C>, act: Chooser<C, A>, h: nat)
  {
    forall c {:trigger c in Cells(m)} | c in Cells(m) :: FreeReward(m, chi, act, h, c) == RewardUpper(m, h, c)
  }

  ghost function FreeValue<S, A, F, C, L>(
      m: Model<S, A, F, C, L>, chi: Resolution<S, C>, act: Chooser<C, A>, h: nat, x: S, a: A): real
  {
    Expect(m.kernel.step(x, a), RewardBranch(m.kernel, m.weight, y => FreeReward(m, chi, act, h, m.cell(y))))
  }

  lemma FreeRewardOf<S, A, F, C, L>(m: Model<S, A, F, C, L>, chi: Resolution<S, C>, act: Chooser<C, A>, h: nat, c: C)
    requires c in Cells(m)
    ensures FreeReward(m, chi, act, h + 1, c) ==
            if Idle(m.kernel, h + 1, chi(h + 1, c)) then 0.0 else FreeValue(m, chi, act, h, chi(h + 1, c), act(h + 1, c))
  {
    hide Idle;
  }

  /** A continuation valued with the envelope, at an active state. */
  lemma FreeStepBelow<S(!new), A(!new), F, C(!new), L(!new)>(
      m: Model<S, A, F, C, L>, chi: Resolution<S, C>, act: Chooser<C, A>, h: nat, x: S, a: A)
    requires WellFormed(m) && x in m.states && !m.kernel.terminal(x) && a in m.kernel.actions(x)
    requires Enveloped(m, chi, act, h)
    ensures FreeValue(m, chi, act, h, x, a) <= ActionValue(m, x, UpperAhead(m, h))(a)
  {
    hide RewardUpper, FreeReward;
    var os, v := m.kernel.step(x, a), UpperAhead(m, h);
    assert forall i | 0 <= i < |os| && !Stopped(m.kernel, os[i].atom) :: m.cell(os[i].atom.next) in Cells(m);
    ExpectMonotone(os, RewardBranch(m.kernel, m.weight, y => FreeReward(m, chi, act, h, m.cell(y))),
                   RewardBranch(m.kernel, m.weight, y => v(m.cell(y))));
  }

  lemma FreeStepMeets<S(!new), A(!new), F, C(!new), L(!new)>(
      m: Model<S, A, F, C, L>, chi: Resolution<S, C>, act: Chooser<C, A>, h: nat, x: S, a: A)
    requires WellFormed(m) && x in m.states && !m.kernel.terminal(x) && a in m.kernel.actions(x)
    requires EnvelopeMet(m, chi, act, h)
    ensures FreeValue(m, chi, act, h, x, a) == ActionValue(m, x, UpperAhead(m, h))(a)
  {
    hide RewardUpper, FreeReward;
    var os, v := m.kernel.step(x, a), UpperAhead(m, h);
    assert forall i | 0 <= i < |os| && !Stopped(m.kernel, os[i].atom) :: m.cell(os[i].atom.next) in Cells(m);
    ExpectCongruent(os, RewardBranch(m.kernel, m.weight, y => FreeReward(m, chi, act, h, m.cell(y))),
                    RewardBranch(m.kernel, m.weight, y => v(m.cell(y))));
  }

  lemma EnvelopedAt<S(!new), A(!new), F, C(!new), L(!new)>(
      m: Model<S, A, F, C, L>, chi: Resolution<S, C>, act: Chooser<C, A>, h: nat, c: C)
    requires WellFormed(m) && FreeChoice(m, chi, act) && Enveloped(m, chi, act, h) && c in Cells(m)
    ensures FreeReward(m, chi, act, h + 1, c) <= RewardUpper(m, h + 1, c)
  {
    hide WellFormed, Enveloped, FreeReward, FreeValue, RewardUpper, ActionValue, UpperAhead, MaxOver, Cells;
    var x := chi(h + 1, c);
    EnvelopeOfCell(m, h + 1, c);
    FreeRewardOf(m, chi, act, h, c);
    MaxIsUpperBound(Members(m, c), UpperAt(m, UpperAhead(m, h)), x);
    if !Idle(m.kernel, h + 1, x) {
      var a := act(h + 1, c);
      MaxIsUpperBound(m.kernel.actions(x), ActionValue(m, x, UpperAhead(m, h)), a);
      FreeStepBelow(m, chi, act, h, x, a);
    }
  }

  lemma EnvelopedLevel<S(!new), A(!new), F, C(!new), L(!new)>(
      m: Model<S, A, F, C, L>, chi: Resolution<S, C>, act: Chooser<C, A>, h: nat, n: nat)
    requires WellFormed(m) && FreeChoice(m, chi, act) && Enveloped(m, chi, act, h) && n == h + 1
    ensures Enveloped(m, chi, act, n)
  {
    hide WellFormed, FreeChoice, FreeReward, RewardUpper, Cells;
    forall c | c in Cells(m)
      ensures FreeReward(m, chi, act, n, c) <= RewardUpper(m, n, c)
    {
      EnvelopedAt(m, chi, act, h, c);
    }
  }

  lemma EnvelopedStart<S(!new), A(!new), F, C(!new), L(!new)>(
      m: Model<S, A, F, C, L>, chi: Resolution<S, C>, act: Chooser<C, A>)
    ensures Enveloped(m, chi, act, 0)
  {
  }

  lemma {:induction false} ChoicesStayEnveloped<S(!new), A(!new), F, C(!new), L(!new)>(
      m: Model<S, A, F, C, L>, chi: Resolution<S, C>, act: Chooser<C, A>, h: nat)
    requires WellFormed(m) && FreeChoice(m, chi, act)
    ensures Enveloped(m, chi, act, h)
    decreases h
  {
    hide *;
    if h == 0 {
      EnvelopedStart(m, chi, act);
    } else {
      ChoicesStayEnveloped(m, chi, act, h - 1);
      EnvelopedLevel(m, chi, act, h - 1, h);
    }
  }

  ghost function Richest<S, A, F, C, L>(m: Model<S, A, F, C, L>, x0: S): Resolution<S, C> {
    (h: nat, c: C) =>
      if h == 0 || Members(m, c) == {} then AnyMember(m, c, x0)
      else MaximumWitness(Members(m, c), UpperAt(m, UpperAhead(m, h - 1)))
  }

  /** The action of largest value at a state with steps remaining. */
  ghost function RichestAction<S, A, F, C, L>(m: Model<S, A, F, C, L>, a0: A, h: nat, x: S): (a: A)
    ensures !Idle(m.kernel, h, x) ==> a in m.kernel.actions(x)
  {
    if Idle(m.kernel, h, x) then a0
    else MaximumWitness(m.kernel.actions(x), ActionValue(m, x, UpperAhead(m, h - 1)))
  }

  ghost function RichestActions<S, A, F, C, L>(m: Model<S, A, F, C, L>, x0: S, a0: A): Chooser<C, A> {
    (h: nat, c: C) => RichestAction(m, a0, h, Richest(m, x0)(h, c))
  }

  lemma RichestIsMember<S, A, F, C, L>(m: Model<S, A, F, C, L>, x0: S, h: nat, c: C)
    requires c in Cells(m)
    ensures Richest(m, x0)(h, c) in Members(m, c)
  {
    hide Members, Cells, UpperAt, AnyMember;
    CellHasMember(m, c);
    if h > 0 {
      var richest := MaximumWitness(Members(m, c), UpperAt(m, UpperAhead(m, h - 1)));
      assert Richest(m, x0)(h, c) == richest;
    } else {
      assert Richest(m, x0)(h, c) == AnyMember(m, c, x0);
    }
  }

  lemma RichestIsFree<S, A, F, C(!new), L>(m: Model<S, A, F, C, L>, x0: S, a0: A)
    ensures FreeChoice(m, Richest(m, x0), RichestActions(m, x0, a0))
  {
    hide Members, Cells, Richest, Idle, RichestAction;
    forall h: nat, c | c in Cells(m)
      ensures Richest(m, x0)(h, c) in Members(m, c)
    {
      RichestIsMember(m, x0, h, c);
    }
  }

  lemma RichestAt<S(!new), A(!new), F, C(!new), L(!new)>(m: Model<S, A, F, C, L>, x0: S, a0: A, h: nat, c: C)
    requires WellFormed(m) && c in Cells(m)
    requires EnvelopeMet(m, Richest(m, x0), RichestActions(m, x0, a0), h)
    ensures FreeReward(m, Richest(m, x0), RichestActions(m, x0, a0), h + 1, c) == RewardUpper(m, h + 1, c)
  {
    hide WellFormed, EnvelopeMet, FreeReward, FreeValue, RewardUpper, ActionValue, Cells, UpperAhead;
    CellHasMember(m, c);
    FreeRewardOf(m, Richest(m, x0), RichestActions(m, x0, a0), h, c);
    RichestIsMember(m, x0, h + 1, c);
    var x := Richest(m, x0)(h + 1, c);
    assert x == MaximumWitness(Members(m, c), UpperAt(m, UpperAhead(m, h)));
    EnvelopeOfCell(m, h + 1, c);
    assert RewardUpper(m, h + 1, c) == UpperAt(m, UpperAhead(m, h))(x);
    if !Idle(m.kernel, h + 1, x) {
      var a := RichestActions(m, x0, a0)(h + 1, c);
      assert a == MaximumWitness(m.kernel.actions(x), ActionValue(m, x, UpperAhead(m, h)));
      FreeStepMeets(m, Richest(m, x0), RichestActions(m, x0, a0), h, x, a);
    }
  }

  lemma EnvelopeMetLevel<S(!new), A(!new), F, C(!new), L(!new)>(m: Model<S, A, F, C, L>, x0: S, a0: A, h: nat, n: nat)
    requires WellFormed(m) && EnvelopeMet(m, Richest(m, x0), RichestActions(m, x0, a0), h) && n == h + 1
    ensures EnvelopeMet(m, Richest(m, x0), RichestActions(m, x0, a0), n)
  {
    hide WellFormed, FreeReward, RewardUpper, Richest, RichestActions, Cells;
    forall c | c in Cells(m)
      ensures FreeReward(m, Richest(m, x0), RichestActions(m, x0, a0), n, c) == RewardUpper(m, n, c)
    {
      RichestAt(m, x0, a0, h, c);
    }
  }

  lemma EnvelopeMetStart<S(!new), A(!new), F, C(!new), L(!new)>(m: Model<S, A, F, C, L>, chi: Resolution<S, C>, act: Chooser<C, A>)
    ensures EnvelopeMet(m, chi, act, 0)
  {
  }

  lemma {:induction false} EnvelopeIsAttained<S(!new), A(!new), F, C(!new), L(!new)>(m: Model<S, A, F, C, L>, x0: S, a0: A, h: nat)
    requires WellFormed(m)
    ensures EnvelopeMet(m, Richest(m, x0), RichestActions(m, x0, a0), h)
    decreases h
  {
    hide *;
    if h == 0 {
      EnvelopeMetStart(m, Richest(m, x0), RichestActions(m, x0, a0));
    } else {
      EnvelopeIsAttained(m, x0, a0, h - 1);
      EnvelopeMetLevel(m, x0, a0, h - 1, h);
    }
  }

  /** The unrestricted envelope is exactly the largest reward over all choices of members and of
      legal ground actions. */
  lemma EnvelopeIsBestCase<S(!new), A(!new), F, C(!new), L(!new)>(m: Model<S, A, F, C, L>, a0: A, h: nat, c: C)
    requires WellFormed(m) && c in Cells(m)
    ensures forall chi: Resolution<S, C>, act: Chooser<C, A> | FreeChoice(m, chi, act) ::
              FreeReward(m, chi, act, h, c) <= RewardUpper(m, h, c)
    ensures exists chi: Resolution<S, C>, act: Chooser<C, A> ::
              FreeChoice(m, chi, act) && FreeReward(m, chi, act, h, c) == RewardUpper(m, h, c)
  {
    hide WellFormed, FreeChoice, FreeReward, RewardUpper;
    forall chi: Resolution<S, C>, act: Chooser<C, A> | FreeChoice(m, chi, act)
      ensures FreeReward(m, chi, act, h, c) <= RewardUpper(m, h, c)
    {
      ChoicesStayEnveloped(m, chi, act, h);
    }
    var x0 :| x0 in m.states && m.cell(x0) == c;
    RichestIsFree(m, x0, a0);
    EnvelopeIsAttained(m, x0, a0, h);
    var chi, act := Richest(m, x0), RichestActions(m, x0, a0);
    assert FreeChoice(m, chi, act) && FreeReward(m, chi, act, h, c) == RewardUpper(m, h, c);
  }
}
