/** Values of the exact orbit quotient.  A quotient policy picks a canonical action for every
    orbit representative; the quotient model uses the representative's projected law, the ground
    runs the uniform mixture over inverse actions.  Both have the same exact values. */
module QuotientValues {
  import opened Extrema
  import opened FiniteSums
  import opened Outcomes
  import opened Symmetry
  import opened OrbitQuotient

  /** A representative per orbit together with an element that reaches it. */
  datatype Canonicalizer<!G, !S> = Canonicalizer(rep: S -> S, via: S -> G)

  ghost predicate CanonicalizerLaws<G(!new), S(!new), A>(ga: GroupAction<G, S, A>, c: Canonicalizer<G, S>) {
    && (forall x {:trigger c.via(x)} :: c.via(x) in ga.elements && ga.onState(c.via(x), x) == c.rep(x))
    && (forall g, x {:trigger c.rep(ga.onState(g, x))} | g in ga.elements ::
          c.rep(ga.onState(g, x)) == c.rep(x))
  }

  ghost predicate ExactQuotient<G(!new), S(!new), A(!new), F(!new)>(
      k: Kernel<S, A, F>, ga: GroupAction<G, S, A>, nodes: seq<Node<S>>, c: Canonicalizer<G, S>)
  {
    SymmetricGraph(k, ga, nodes) && CanonicalizerLaws(ga, c)
  }

  lemma CanonicalNode<G(!new), S(!new), A(!new), F(!new)>(
      k: Kernel<S, A, F>, ga: GroupAction<G, S, A>, nodes: seq<Node<S>>, c: Canonicalizer<G, S>, h: nat, x: S)
    requires ExactQuotient(k, ga, nodes, c) && InGraph(nodes, h, x)
    ensures InGraph(nodes, h, c.rep(x)) && Idle(k, h, c.rep(x)) == Idle(k, h, x)
    ensures h > 0 ==> k.terminal(c.rep(x)) == k.terminal(x)
  {
    assert Equivariant(k, ga, nodes, c.via(x), h, x);
    IdleInvariant(k, ga, nodes, c.via(x), h, x);
  }

  // ---- One step ---------------------------------------------------------------------------

  /** Continuations that agree between a state and its representative. */
  ghost predicate Agree<G, S(!new)>(nodes: seq<Node<S>>, c: Canonicalizer<G, S>, h: nat, ground: S -> real, quotient: S -> real) {
    && (forall y | InGraph(nodes, h, y) :: ground(y) == quotient(c.rep(y)))
    && (h == 0 ==> forall y :: ground(y) == 0.0 && quotient(y) == 0.0)
  }

  /** Evaluating a projected law is evaluating the law itself with agreeing continuations. */
  lemma ProjectedStep<G(!new), S(!new), A(!new), F(!new)>(
      k: Kernel<S, A, F>, ga: GroupAction<G, S, A>, nodes: seq<Node<S>>, c: Canonicalizer<G, S>,
      h: nat, x: S, a: A, w: F -> real, ground: S -> real, quotient: S -> real)
    requires ExactQuotient(k, ga, nodes, c)
    requires InGraph(nodes, h, x) && !Idle(k, h, x) && a in k.actions(x)
    requires Agree(nodes, c, h - 1, ground, quotient)
    ensures Expect(Mapped(k.step(x, a), c.rep), RewardBranch(k, w, quotient))
         == Expect(k.step(x, a), RewardBranch(k, w, ground))
    ensures Expect(Mapped(k.step(x, a), c.rep), FailureBranch(k, quotient))
         == Expect(k.step(x, a), FailureBranch(k, ground))
  {
    forall i | 0 <= i < |k.step(x, a)|
      ensures var atom := k.step(x, a)[i].atom;
              && RewardBranch(k, w, quotient)(MapAtom(atom, c.rep)) == RewardBranch(k, w, ground)(atom)
              && FailureBranch(k, quotient)(MapAtom(atom, c.rep)) == FailureBranch(k, ground)(atom)
    {
      var atom := k.step(x, a)[i].atom;
      assert InGraph(nodes, h - 1, atom.next);
      CanonicalNode(k, ga, nodes, c, h - 1, atom.next);
    }
    ExpectMapped(k.step(x, a), c.rep, RewardBranch(k, w, quotient));
    ExpectMapped(k.step(x, a), c.rep, FailureBranch(k, quotient));
    ExpectCongruent(k.step(x, a), RewardBranch(k, w, ground), b => RewardBranch(k, w, quotient)(MapAtom(b, c.rep)));
    ExpectCongruent(k.step(x, a), FailureBranch(k, ground), b => FailureBranch(k, quotient)(MapAtom(b, c.rep)));
  }

  // ---- The orbit-projected measure --------------------------------------------------------

  /** All inverse actions in the support of a semantic action, at every member of the orbit, induce
      one orbit-projected outcome measure: the joint law of successor orbit, reward features,
      failure and termination flag. */
  lemma SupportMeasure<G(!new), S(!new), A(!new), F(!new)>(
      k: Kernel<S, A, F>, ga: GroupAction<G, S, A>, nodes: seq<Node<S>>, c: Canonicalizer<G, S>,
      h: nat, x: S, a: A, b: A)
    requires ExactQuotient(k, ga, nodes, c)
    requires InGraph(nodes, h, x) && !Idle(k, h, x)
    requires a in k.actions(c.rep(x)) && b in Support(ga, x, c.rep(x), a)
    ensures b in k.actions(x)
    ensures SameMass(Mapped(k.step(x, b), c.rep), Mapped(k.step(c.rep(x), a), c.rep))
  {
    hide SameMass, Support;
    var t := SupportTransporter(k, ga, nodes, c, h, x, a, b);
    assert Equivariant(k, ga, nodes, t, h, x);
    assert StepEquivariant(k, ga, t, x, b);
    var moved := Mapped(k.step(x, b), StateMap(ga, t));
    SameMassMapped(moved, k.step(c.rep(x), a), c.rep);
    ProjectionForgets(k.step(x, b), StateMap(ga, t), c.rep);
  }

  lemma {:induction false} ProjectionForgets<S, F>(os: Outcomes<S, F>, t: S -> S, rep: S -> S)
    requires forall y :: rep(t(y)) == rep(y)
    ensures Mapped(Mapped(os, t), rep) == Mapped(os, rep)
  {
  }

  /** An expectation that only sees the orbit of the successor. */
  ghost function Seen<G, S, A, F>(k: Kernel<S, A, F>, c: Canonicalizer<G, S>, x: S, f: Atom<S, F> -> real): A -> real {
    b => Expect(Mapped(k.step(x, b), c.rep), f)
  }

  /** The quotient tuple does not depend on the member: whatever is read off successor orbit,
      features and flags, the uniform mixture over the support at any member of the orbit gives
      what the canonical action gives at the representative. */
  lemma TupleIndependent<G(!new), S(!new), A(!new), F(!new)>(
      k: Kernel<S, A, F>, ga: GroupAction<G, S, A>, nodes: seq<Node<S>>, c: Canonicalizer<G, S>,
      h: nat, x: S, a: A, f: Atom<S, F> -> real)
    requires ExactQuotient(k, ga, nodes, c)
    requires InGraph(nodes, h, x) && !Idle(k, h, x) && a in k.actions(c.rep(x))
    ensures Support(ga, x, c.rep(x), a) != {}
    ensures Uniform(Support(ga, x, c.rep(x), a), Seen(k, c, x, f)) == Seen(k, c, c.rep(x), f)(a)
  {
    hide Support, Uniform, ExactQuotient;
    var support := Support(ga, x, c.rep(x), a);
    SupportIsInhabited(k, ga, nodes, c, x, a);
    forall b | b in support
      ensures Seen(k, c, x, f)(b) == Seen(k, c, c.rep(x), f)(a)
    {
      SupportMeasure(k, ga, nodes, c, h, x, a, b);
      SameMassSameExpect(Mapped(k.step(x, b), c.rep), Mapped(k.step(c.rep(x), a), c.rep), f);
    }
    UniformOfConstant(support, Seen(k, c, x, f), Seen(k, c, c.rep(x), f)(a));
  }

  lemma SupportIsInhabited<G(!new), S(!new), A(!new), F(!new)>(
      k: Kernel<S, A, F>, ga: GroupAction<G, S, A>, nodes: seq<Node<S>>, c: Canonicalizer<G, S>, x: S, a: A)
    requires ExactQuotient(k, ga, nodes, c)
    ensures Support(ga, x, c.rep(x), a) != {}
  {
    SupportInhabited(ga, c, x, a);
  }

  function FeatureTotal<S, F>(phi: F -> real): Atom<S, F> -> real {
    (a: Atom<S, F>) => phi(a.features)
  }

  function FailureMass<S, F>(): Atom<S, F> -> real {
    (a: Atom<S, F>) => if a.failure then 1.0 else 0.0
  }

  function OrbitMass<S(==), F>(orbit: S): Atom<S, F> -> real {
    (a: Atom<S, F>) => if a.next == orbit then 1.0 else 0.0
  }

  function StopMass<S, A, F>(k: Kernel<S, A, F>): Atom<S, F> -> real {
    (a: Atom<S, F>) => if Stopped(k, a) then 1.0 else 0.0
  }

  /** A successor cell: failed pairs of one horizon share a cell, other pairs have their orbit's. */
  datatype Cell<S> = FailureCell | OrbitCell(rep: S)

  function CellOf<G, S>(c: Canonicalizer<G, S>, failed: S -> bool, y: S): Cell<S> {
    if failed(y) then FailureCell else OrbitCell(c.rep(y))
  }

  function CellMass<G, S(==), F>(c: Canonicalizer<G, S>, failed: S -> bool, cell: Cell<S>): Atom<S, F> -> real {
    (a: Atom<S, F>) => if CellOf(c, failed, a.next) == cell then 1.0 else 0.0
  }

  /** The entries of the tuple as the realization of one state computes them from its own
      outcomes: every feature total, the failure probability, the mass of every successor orbit
      and, for a failure set closed under the group, of every successor cell. */
  lemma TupleEntries<G(!new), S(!new), A(!new), F(!new)>(
      k: Kernel<S, A, F>, ga: GroupAction<G, S, A>, c: Canonicalizer<G, S>,
      x: S, a: A, phi: F -> real, orbit: S, failed: S -> bool, cell: Cell<S>)
    requires CanonicalizerLaws(ga, c) && forall y :: failed(c.rep(y)) == failed(y)
    ensures Seen(k, c, x, FeatureTotal(phi))(a) == Expect(k.step(x, a), FeatureTotal(phi))
    ensures Seen(k, c, x, FailureMass())(a) == Expect(k.step(x, a), FailureMass())
    ensures Seen(k, c, x, OrbitMass(orbit))(a) == Expect(k.step(x, a), (b: Atom<S, F>) => if c.rep(b.next) == orbit then 1.0 else 0.0)
    ensures Seen(k, c, x, CellMass(c, failed, cell))(a) == Expect(k.step(x, a), CellMass(c, failed, cell))
  {
    var os := k.step(x, a);
    ExpectMapped(os, c.rep, FeatureTotal(phi));
    ExpectCongruent(os, FeatureTotal(phi), b => FeatureTotal(phi)(MapAtom(b, c.rep)));
    ExpectMapped(os, c.rep, FailureMass());
    ExpectCongruent(os, FailureMass(), b => FailureMass()(MapAtom(b, c.rep)));
    ExpectMapped(os, c.rep, OrbitMass(orbit));
    ExpectCongruent(os, (b: Atom<S, F>) => if c.rep(b.next) == orbit then 1.0 else 0.0, b => OrbitMass(orbit)(MapAtom(b, c.rep)));
    forall y
      ensures CellOf(c, failed, c.rep(y)) == CellOf(c, failed, y)
    {
      assert c.rep(ga.onState(c.via(y), y)) == c.rep(y);
    }
    ExpectMapped(os, c.rep, CellMass(c, failed, cell));
    ExpectCongruent(os, CellMass(c, failed, cell), b => CellMass(c, failed, cell)(MapAtom(b, c.rep)));
  }

  /** The entries are what evaluation uses: with one step left a policy earns the feature total and
      fails with the failure probability, and stopping and continuing exhaust the probability. */
  lemma LastStepEntries<S, A, F>(k: Kernel<S, A, F>, pi: Policy<S, A>, x: S, phi: F -> real)
    requires !Idle(k, 1, x)
    ensures var os := k.step(x, pi(1, x));
            && Reward(k, phi, pi, 1, x) == Expect(os, FeatureTotal(phi))
            && Failure(k, pi, 1, x) == Expect(os, FailureMass())
            && Expect(os, StopMass(k)) + Expect(os, RewardBranch(k, q => 0.0, y => 1.0)) == Expect(os, b => 1.0)
  {
    var os := k.step(x, pi(1, x));
    var reward, failure: S -> real := y => Reward(k, phi, pi, 0, y), y => Failure(k, pi, 0, y);
    forall i | 0 <= i < |os|
      ensures RewardBranch(k, phi, reward)(os[i].atom) == FeatureTotal(phi)(os[i].atom)
    {
      assert reward(os[i].atom.next) == 0.0;
    }
    ExpectCongruent(os, RewardBranch(k, phi, reward), FeatureTotal(phi));
    ExpectCongruent(os, FailureBranch(k, failure), FailureMass());
    ExpectAdd(os, StopMass(k), RewardBranch(k, q => 0.0, y => 1.0), b => 1.0);
  }

  /** Two successors share a cell if and only if both failed, or neither did and they share an orbit. */
  lemma SameCellIff<G, S>(c: Canonicalizer<G, S>, failed: S -> bool, y: S, z: S)
    ensures CellOf(c, failed, y) == CellOf(c, failed, z) <==>
            (failed(y) && failed(z)) || (!failed(y) && !failed(z) && c.rep(y) == c.rep(z))
  {
  }

  /** The successors of a step are as terminal as their representatives. */
  ghost predicate StopsAlike<G, S, A, F>(k: Kernel<S, A, F>, c: Canonicalizer<G, S>, x: S, a: A) {
    forall i | 0 <= i < |k.step(x, a)| :: k.terminal(c.rep(k.step(x, a)[i].atom.next)) == k.terminal(k.step(x, a)[i].atom.next)
  }

  /** The termination probability is an entry as well whenever the successors stop like their
      representatives: always while they have time left, and at the last step, whose successors the
      recomputation no longer compares, for kernels whose terminal status is invariant. */
  lemma TerminationEntry<G(!new), S(!new), A(!new), F(!new)>(
      k: Kernel<S, A, F>, ga: GroupAction<G, S, A>, nodes: seq<Node<S>>, c: Canonicalizer<G, S>, h: nat, x: S, a: A)
    requires ExactQuotient(k, ga, nodes, c)
    requires InGraph(nodes, h, x) && !Idle(k, h, x) && a in k.actions(x)
    ensures h > 1 ==> StopsAlike(k, c, x, a)
    ensures StopsAlike(k, c, x, a) ==> Seen(k, c, x, StopMass(k))(a) == Expect(k.step(x, a), StopMass(k))
  {
    var os := k.step(x, a);
    if h > 1 {
      forall i | 0 <= i < |os|
        ensures k.terminal(c.rep(os[i].atom.next)) == k.terminal(os[i].atom.next)
      {
        assert InGraph(nodes, h - 1, os[i].atom.next);
        CanonicalNode(k, ga, nodes, c, h - 1, os[i].atom.next);
      }
    }
    if StopsAlike(k, c, x, a) {
      ExpectMapped(os, c.rep, StopMass(k));
      ExpectCongruent(os, StopMass(k), b => StopMass(k)(MapAtom(b, c.rep)));
    }
  }

  /** Every inverse action in the support of a semantic action has the canonical action's value for
      any agreeing continuations. */
  lemma SupportStepValue<G(!new), S(!new), A(!new), F(!new)>(
      k: Kernel<S, A, F>, ga: GroupAction<G, S, A>, nodes: seq<Node<S>>, c: Canonicalizer<G, S>,
      h: nat, x: S, a: A, b: A, w: F -> real, ground: S -> real, quotient: S -> real)
    requires ExactQuotient(k, ga, nodes, c)
    requires InGraph(nodes, h, x) && !Idle(k, h, x)
    requires a in k.actions(c.rep(x)) && b in Support(ga, x, c.rep(x), a)
    requires Agree(nodes, c, h - 1, ground, quotient)
    ensures b in k.actions(x)
    ensures Expect(k.step(x, b), RewardBranch(k, w, ground))
         == Expect(Mapped(k.step(c.rep(x), a), c.rep), RewardBranch(k, w, quotient))
    ensures Expect(k.step(x, b), FailureBranch(k, ground))
         == Expect(Mapped(k.step(c.rep(x), a), c.rep), FailureBranch(k, quotient))
  {
    hide ExactQuotient, Support, SameMass, Agree;
    SupportMeasure(k, ga, nodes, c, h, x, a, b);
    ProjectedStep(k, ga, nodes, c, h, x, b, w, ground, quotient);
    var here, there := Mapped(k.step(x, b), c.rep), Mapped(k.step(c.rep(x), a), c.rep);
    SameMassSameExpect(here, there, RewardBranch(k, w, quotient));
    SameMassSameExpect(here, there, FailureBranch(k, quotient));
  }

  lemma SupportTransporter<G(!new), S(!new), A(!new), F(!new)>(
      k: Kernel<S, A, F>, ga: GroupAction<G, S, A>, nodes: seq<Node<S>>, c: Canonicalizer<G, S>,
      h: nat, x: S, a: A, b: A)
    returns (t: G)
    requires ExactQuotient(k, ga, nodes, c) && InGraph(nodes, h, x)
    requires a in k.actions(c.rep(x)) && b in Support(ga, x, c.rep(x), a)
    ensures t in ga.elements && ga.onState(t, x) == c.rep(x) && ga.onAction(t, b) == a
    ensures b in k.actions(x)
  {
    SupportMember(ga, x, c.rep(x), a, b);
    t :| t in ga.elements && ga.onState(t, x) == c.rep(x) && ga.onAction(t, b) == a;
    InverseLegal(k, ga, nodes, h, x, t, b);
  }

  lemma InverseLegal<G(!new), S(!new), A(!new), F(!new)>(
      k: Kernel<S, A, F>, ga: GroupAction<G, S, A>, nodes: seq<Node<S>>, h: nat, x: S, t: G, b: A)
    requires SymmetricGraph(k, ga, nodes) && InGraph(nodes, h, x) && t in ga.elements
    requires ga.onAction(t, b) in k.actions(ga.onState(t, x))
    ensures b in k.actions(x)
  {
    assert Equivariant(k, ga, nodes, t, h, x);
    var d :| d in k.actions(x) && ga.onAction(t, d) == ga.onAction(t, b);
    assert ga.onAction(ga.inverse(t), ga.onAction(t, d)) == d;
    assert ga.onAction(ga.inverse(t), ga.onAction(t, b)) == b;
  }

  lemma SupportInhabited<G(!new), S(!new), A(!new)>(
      ga: GroupAction<G, S, A>, c: Canonicalizer<G, S>, x: S, a: A)
    requires GroupLaws(ga) && CanonicalizerLaws(ga, c)
    ensures ga.onAction(ga.inverse(c.via(x)), a) in Support(ga, x, c.rep(x), a)
  {
  }

  // ---- Quotient policies and their lifts --------------------------------------------------

  ghost function QuotientReward<G, S, A, F>(
      k: Kernel<S, A, F>, c: Canonicalizer<G, S>, w: F -> real, sigma: Policy<S, A>, h: nat, xc: S): real
  {
    if Idle(k, h, xc) then 0.0
    else Expect(Mapped(k.step(xc, sigma(h, xc)), c.rep),
                RewardBranch(k, w, y => QuotientReward(k, c, w, sigma, h - 1, y)))
  }

  ghost function QuotientFailure<G, S, A, F>(
      k: Kernel<S, A, F>, c: Canonicalizer<G, S>, sigma: Policy<S, A>, h: nat, xc: S): real
  {
    if Idle(k, h, xc) then 0.0
    else Expect(Mapped(k.step(xc, sigma(h, xc)), c.rep),
                FailureBranch(k, y => QuotientFailure(k, c, sigma, h - 1, y)))
  }

  /** The stochastic ground policy that mixes uniformly over the inverse actions. */
  ghost function LiftedReward<G(!new), S, A, F>(
      k: Kernel<S, A, F>, ga: GroupAction<G, S, A>, c: Canonicalizer<G, S>, w: F -> real, sigma: Policy<S, A>, h: nat, x: S): real
  {
    var support := Support(ga, x, c.rep(x), sigma(h, c.rep(x)));
    if Idle(k, h, x) || support == {} then 0.0
    else Uniform(support, b =>
           Expect(k.step(x, b), RewardBranch(k, w, y => LiftedReward(k, ga, c, w, sigma, h - 1, y))))
  }

  ghost function LiftedFailure<G(!new), S, A, F>(
      k: Kernel<S, A, F>, ga: GroupAction<G, S, A>, c: Canonicalizer<G, S>, sigma: Policy<S, A>, h: nat, x: S): real
  {
    var support := Support(ga, x, c.rep(x), sigma(h, c.rep(x)));
    if Idle(k, h, x) || support == {} then 0.0
    else Uniform(support, b =>
           Expect(k.step(x, b), FailureBranch(k, y => LiftedFailure(k, ga, c, sigma, h - 1, y))))
  }

  /** The quotient policy names a legal canonical action at every active representative. */
  ghost predicate LegalQuotientPolicy<G, S(!new), A, F>(
      k: Kernel<S, A, F>, nodes: seq<Node<S>>, c: Canonicalizer<G, S>, sigma: Policy<S, A>)
  {
    forall h: nat, x {:trigger sigma(h, c.rep(x))} | InGraph(nodes, h, x) && !Idle(k, h, x) ::
      sigma(h, c.rep(x)) in k.actions(c.rep(x))
  }

  /** All three evaluations agree on every node with remaining horizon `h`. */
  ghost predicate LiftAgrees<G(!new), S(!new), A, F>(
      k: Kernel<S, A, F>, ga: GroupAction<G, S, A>, nodes: seq<Node<S>>, c: Canonicalizer<G, S>,
      w: F -> real, sigma: Policy<S, A>, h: nat)
  {
    forall x | InGraph(nodes, h, x) ::
      && LiftedReward(k, ga, c, w, sigma, h, x) == QuotientReward(k, c, w, sigma, h, c.rep(x))
      && LiftedFailure(k, ga, c, sigma, h, x) == QuotientFailure(k, c, sigma, h, c.rep(x))
  }

  lemma LiftStepAt<G(!new), S(!new), A(!new), F(!new)>(
      k: Kernel<S, A, F>, ga: GroupAction<G, S, A>, nodes: seq<Node<S>>, c: Canonicalizer<G, S>,
      w: F -> real, sigma: Policy<S, A>, h: nat, x: S)
    requires ExactQuotient(k, ga, nodes, c) && LegalQuotientPolicy(k, nodes, c, sigma)
    requires InGraph(nodes, h + 1, x) && LiftAgrees(k, ga, nodes, c, w, sigma, h)
    ensures LiftedReward(k, ga, c, w, sigma, h + 1, x) == QuotientReward(k, c, w, sigma, h + 1, c.rep(x))
    ensures LiftedFailure(k, ga, c, sigma, h + 1, x) == QuotientFailure(k, c, sigma, h + 1, c.rep(x))
  {
    var n := h + 1;
    CanonicalNode(k, ga, nodes, c, n, x);
    if !Idle(k, n, x) {
      var a := sigma(n, c.rep(x));
      assert a in k.actions(c.rep(x));
      var support := Support(ga, x, c.rep(x), a);
      SupportInhabited(ga, c, x, a);
      var ground, quotient := y => LiftedReward(k, ga, c, w, sigma, h, y), y => QuotientReward(k, c, w, sigma, h, y);
      var groundF, quotientF := y => LiftedFailure(k, ga, c, sigma, h, y), y => QuotientFailure(k, c, sigma, h, y);
      forall b | b in support
        ensures Expect(k.step(x, b), RewardBranch(k, w, ground))
             == Expect(Mapped(k.step(c.rep(x), a), c.rep), RewardBranch(k, w, quotient))
        ensures Expect(k.step(x, b), FailureBranch(k, groundF))
             == Expect(Mapped(k.step(c.rep(x), a), c.rep), FailureBranch(k, quotientF))
      {
        SupportStepValue(k, ga, nodes, c, n, x, a, b, w, ground, quotient);
        SupportStepValue(k, ga, nodes, c, n, x, a, b, w, groundF, quotientF);
      }
      UniformOfConstant(support, b => Expect(k.step(x, b), RewardBranch(k, w, ground)),
                        Expect(Mapped(k.step(c.rep(x), a), c.rep), RewardBranch(k, w, quotient)));
      UniformOfConstant(support, b => Expect(k.step(x, b), FailureBranch(k, groundF)),
                        Expect(Mapped(k.step(c.rep(x), a), c.rep), FailureBranch(k, quotientF)));
    }
  }

  /** At every horizon, the uniform inverse-action lift of a quotient policy has exactly the
      quotient policy's reward and failure probability, from every member of every orbit. */
  lemma LiftedPolicyIsExact<G(!new), S(!new), A(!new), F(!new)>(
      k: Kernel<S, A, F>, ga: GroupAction<G, S, A>, nodes: seq<Node<S>>, c: Canonicalizer<G, S>,
      w: F -> real, sigma: Policy<S, A>, h: nat)
    requires ExactQuotient(k, ga, nodes, c) && LegalQuotientPolicy(k, nodes, c, sigma)
    ensures LiftAgrees(k, ga, nodes, c, w, sigma, h)
  {
    var j: nat := 0;
    while j < h
      invariant j <= h
      invariant LiftAgrees(k, ga, nodes, c, w, sigma, j)
    {
      forall x | InGraph(nodes, j + 1, x)
        ensures LiftedReward(k, ga, c, w, sigma, j + 1, x) == QuotientReward(k, c, w, sigma, j + 1, c.rep(x))
        ensures LiftedFailure(k, ga, c, sigma, j + 1, x) == QuotientFailure(k, c, sigma, j + 1, c.rep(x))
      {
        LiftStepAt(k, ga, nodes, c, w, sigma, j, x);
      }
      j := j + 1;
    }
  }

  // ---- Deterministic ground policies ------------------------------------------------------

  /** The ground policy plays, at every member of an orbit, some inverse action of the canonical
      action the quotient policy picks for that orbit. */
  ghost predicate Consistent<G(!new), S(!new), A, F>(
      k: Kernel<S, A, F>, ga: GroupAction<G, S, A>, nodes: seq<Node<S>>, c: Canonicalizer<G, S>,
      sigma: Policy<S, A>, pi: Policy<S, A>)
  {
    forall h: nat, x {:trigger pi(h, x)} | InGraph(nodes, h, x) && !Idle(k, h, x) ::
      pi(h, x) in Support(ga, x, c.rep(x), sigma(h, c.rep(x)))
  }

  ghost predicate PolicyAgrees<G(!new), S(!new), A, F>(
      k: Kernel<S, A, F>, nodes: seq<Node<S>>, c: Canonicalizer<G, S>,
      w: F -> real, sigma: Policy<S, A>, pi: Policy<S, A>, h: nat)
  {
    forall x | InGraph(nodes, h, x) ::
      && Reward(k, w, pi, h, x) == QuotientReward(k, c, w, sigma, h, c.rep(x))
      && Failure(k, pi, h, x) == QuotientFailure(k, c, sigma, h, c.rep(x))
  }

  lemma ConsistentStepAt<G(!new), S(!new), A(!new), F(!new)>(
      k: Kernel<S, A, F>, ga: GroupAction<G, S, A>, nodes: seq<Node<S>>, c: Canonicalizer<G, S>,
      w: F -> real, sigma: Policy<S, A>, pi: Policy<S, A>, h: nat, x: S)
    requires ExactQuotient(k, ga, nodes, c) && LegalQuotientPolicy(k, nodes, c, sigma)
    requires Consistent(k, ga, nodes, c, sigma, pi)
    requires InGraph(nodes, h + 1, x) && PolicyAgrees(k, nodes, c, w, sigma, pi, h)
    ensures Reward(k, w, pi, h + 1, x) == QuotientReward(k, c, w, sigma, h + 1, c.rep(x))
    ensures Failure(k, pi, h + 1, x) == QuotientFailure(k, c, sigma, h + 1, c.rep(x))
  {
    hide Support;
    var n := h + 1;
    CanonicalNode(k, ga, nodes, c, n, x);
    if !Idle(k, n, x) {
      var a := sigma(n, c.rep(x));
      SupportStepValue(k, ga, nodes, c, n, x, a, pi(n, x), w,
                       y => Reward(k, w, pi, h, y), y => QuotientReward(k, c, w, sigma, h, y));
      SupportStepValue(k, ga, nodes, c, n, x, a, pi(n, x), w,
                       y => Failure(k, pi, h, y), y => QuotientFailure(k, c, sigma, h, y));
    }
  }

  lemma ConsistentLevel<G(!new), S(!new), A(!new), F(!new)>(
      k: Kernel<S, A, F>, ga: GroupAction<G, S, A>, nodes: seq<Node<S>>, c: Canonicalizer<G, S>,
      w: F -> real, sigma: Policy<S, A>, pi: Policy<S, A>, h: nat, n: nat)
    requires ExactQuotient(k, ga, nodes, c) && LegalQuotientPolicy(k, nodes, c, sigma)
    requires Consistent(k, ga, nodes, c, sigma, pi) && PolicyAgrees(k, nodes, c, w, sigma, pi, h) && n == h + 1
    ensures PolicyAgrees(k, nodes, c, w, sigma, pi, n)
  {
    hide ExactQuotient, LegalQuotientPolicy, Consistent, Reward, Failure, QuotientReward, QuotientFailure;
    forall x | InGraph(nodes, n, x)
      ensures Reward(k, w, pi, n, x) == QuotientReward(k, c, w, sigma, n, c.rep(x))
      ensures Failure(k, pi, n, x) == QuotientFailure(k, c, sigma, n, c.rep(x))
    {
      ConsistentStepAt(k, ga, nodes, c, w, sigma, pi, h, x);
    }
  }

  /** Every orbit-consistent deterministic ground policy has exactly the quotient policy's values. */
  lemma ConsistentPolicyIsExact<G(!new), S(!new), A(!new), F(!new)>(
      k: Kernel<S, A, F>, ga: GroupAction<G, S, A>, nodes: seq<Node<S>>, c: Canonicalizer<G, S>,
      w: F -> real, sigma: Policy<S, A>, pi: Policy<S, A>, h: nat)
    requires ExactQuotient(k, ga, nodes, c) && LegalQuotientPolicy(k, nodes, c, sigma)
    requires Consistent(k, ga, nodes, c, sigma, pi)
    ensures PolicyAgrees(k, nodes, c, w, sigma, pi, h)
  {
    hide ExactQuotient, LegalQuotientPolicy, Consistent, PolicyAgrees;
    var j: nat := 0;
    PolicyAgreesAtZero(k, nodes, c, w, sigma, pi);
    while j < h
      invariant j <= h && PolicyAgrees(k, nodes, c, w, sigma, pi, j)
    {
      ConsistentLevel(k, ga, nodes, c, w, sigma, pi, j, j + 1);
      j := j + 1;
    }
  }

  lemma PolicyAgreesAtZero<G(!new), S(!new), A(!new), F(!new)>(
      k: Kernel<S, A, F>, nodes: seq<Node<S>>, c: Canonicalizer<G, S>, w: F -> real, sigma: Policy<S, A>, pi: Policy<S, A>)
    ensures PolicyAgrees(k, nodes, c, w, sigma, pi, 0)
  {
  }

  /** The ground policy that pulls the canonical action back through one canonicalizing element. */
  function Selection<G, S, A>(ga: GroupAction<G, S, A>, c: Canonicalizer<G, S>, sigma: Policy<S, A>): Policy<S, A> {
    (h: nat, x: S) => ga.onAction(ga.inverse(c.via(x)), sigma(h, c.rep(x)))
  }

  lemma SelectionIsConsistent<G(!new), S(!new), A(!new), F(!new)>(
      k: Kernel<S, A, F>, ga: GroupAction<G, S, A>, nodes: seq<Node<S>>, c: Canonicalizer<G, S>, sigma: Policy<S, A>)
    requires ExactQuotient(k, ga, nodes, c)
    ensures Consistent(k, ga, nodes, c, sigma, Selection(ga, c, sigma))
  {
    hide Support;
    var pi := Selection(ga, c, sigma);
    forall h: nat, x | InGraph(nodes, h, x) && !Idle(k, h, x)
      ensures pi(h, x) in Support(ga, x, c.rep(x), sigma(h, c.rep(x)))
    {
      SupportInhabited(ga, c, x, sigma(h, c.rep(x)));
    }
  }

  lemma SelectionIsExact<G(!new), S(!new), A(!new), F(!new)>(
      k: Kernel<S, A, F>, ga: GroupAction<G, S, A>, nodes: seq<Node<S>>, c: Canonicalizer<G, S>,
      w: F -> real, sigma: Policy<S, A>, h: nat)
    requires ExactQuotient(k, ga, nodes, c) && LegalQuotientPolicy(k, nodes, c, sigma)
    ensures PolicyAgrees(k, nodes, c, w, sigma, Selection(ga, c, sigma), h)
  {
    hide LegalQuotientPolicy, Consistent, PolicyAgrees;
    SelectionIsConsistent(k, ga, nodes, c, sigma);
    ConsistentPolicyIsExact(k, ga, nodes, c, w, sigma, Selection(ga, c, sigma), h);
  }

  lemma ConsistentIsLegal<G(!new), S(!new), A(!new), F(!new)>(
      k: Kernel<S, A, F>, ga: GroupAction<G, S, A>, nodes: seq<Node<S>>, c: Canonicalizer<G, S>,
      sigma: Policy<S, A>, pi: Policy<S, A>)
    requires ExactQuotient(k, ga, nodes, c) && LegalQuotientPolicy(k, nodes, c, sigma)
    requires Consistent(k, ga, nodes, c, sigma, pi)
    ensures Legal(k, nodes, pi)
  {
    hide Support;
    forall h: nat, x | InGraph(nodes, h, x) && !Idle(k, h, x)
      ensures pi(h, x) in k.actions(x)
    {
      CanonicalNode(k, ga, nodes, c, h, x);
      var t := SupportTransporter(k, ga, nodes, c, h, x, sigma(h, c.rep(x)), pi(h, x));
    }
  }

  /** The value of some legal quotient policy at the representative. */
  ghost predicate QuotientValue<G, S(!new), A(!new), F>(
      k: Kernel<S, A, F>, nodes: seq<Node<S>>, c: Canonicalizer<G, S>, w: F -> real, h: nat, xc: S, v: Value)
  {
    exists sigma: Policy<S, A> :: QuotientAchieves(k, nodes, c, w, sigma, h, xc, v)
  }

  ghost predicate QuotientAchieves<G, S(!new), A, F>(
      k: Kernel<S, A, F>, nodes: seq<Node<S>>, c: Canonicalizer<G, S>, w: F -> real, sigma: Policy<S, A>, h: nat, xc: S, v: Value)
  {
    && LegalQuotientPolicy(k, nodes, c, sigma)
    && QuotientReward(k, c, w, sigma, h, xc) == v.reward && QuotientFailure(k, c, sigma, h, xc) == v.failure
  }

  ghost predicate ConsistentAchieves<G(!new), S(!new), A(!new), F>(
      k: Kernel<S, A, F>, ga: GroupAction<G, S, A>, nodes: seq<Node<S>>, c: Canonicalizer<G, S>,
      w: F -> real, sigma: Policy<S, A>, pi: Policy<S, A>, h: nat, x: S, v: Value)
  {
    && LegalQuotientPolicy(k, nodes, c, sigma) && Consistent(k, ga, nodes, c, sigma, pi)
    && Achieves(k, nodes, w, pi, h, x, v)
  }

  /** The quotient's values at an orbit are exactly the values its members achieve by legal
      deterministic ground policies that treat the members of each orbit alike. */
  lemma QuotientValuesAreConsistentValues<G(!new), S(!new), A(!new), F(!new)>(
      k: Kernel<S, A, F>, ga: GroupAction<G, S, A>, nodes: seq<Node<S>>, c: Canonicalizer<G, S>,
      w: F -> real, h: nat, x: S, v: Value)
    requires ExactQuotient(k, ga, nodes, c) && InGraph(nodes, h, x)
    ensures QuotientValue(k, nodes, c, w, h, c.rep(x), v) <==>
            exists sigma: Policy<S, A>, pi: Policy<S, A> :: ConsistentAchieves(k, ga, nodes, c, w, sigma, pi, h, x, v)
  {
    hide ExactQuotient, LegalQuotientPolicy, Consistent, Legal, Reward, Failure, QuotientReward, QuotientFailure, Selection;
    if QuotientValue(k, nodes, c, w, h, c.rep(x), v) {
      var sigma: Policy<S, A> :| QuotientAchieves(k, nodes, c, w, sigma, h, c.rep(x), v);
      var pi := Selection(ga, c, sigma);
      SelectionIsConsistent(k, ga, nodes, c, sigma);
      ConsistentPolicyIsExact(k, ga, nodes, c, w, sigma, pi, h);
      ConsistentIsLegal(k, ga, nodes, c, sigma, pi);
      assert ConsistentAchieves(k, ga, nodes, c, w, sigma, pi, h, x, v);
    }
    if sigma: Policy<S, A>, pi: Policy<S, A> :| ConsistentAchieves(k, ga, nodes, c, w, sigma, pi, h, x, v) {
      ConsistentPolicyIsExact(k, ga, nodes, c, w, sigma, pi, h);
      assert QuotientAchieves(k, nodes, c, w, sigma, h, c.rep(x), v);
    }
  }

  /** In particular every quotient value is achievable by a deterministic ground policy. */
  lemma QuotientValueIsAchievable<G(!new), S(!new), A(!new), F(!new)>(
      k: Kernel<S, A, F>, ga: GroupAction<G, S, A>, nodes: seq<Node<S>>, c: Canonicalizer<G, S>,
      w: F -> real, h: nat, x: S, v: Value)
    requires ExactQuotient(k, ga, nodes, c) && InGraph(nodes, h, x) && QuotientValue(k, nodes, c, w, h, c.rep(x), v)
    ensures Achievable(k, nodes, w, h, x, v)
  {
    hide ExactQuotient, QuotientValue, Achieves;
    QuotientValuesAreConsistentValues(k, ga, nodes, c, w, h, x, v);
    var sigma: Policy<S, A>, pi: Policy<S, A> :| ConsistentAchieves(k, ga, nodes, c, w, sigma, pi, h, x, v);
    assert Achieves(k, nodes, w, pi, h, x, v);
  }

  // ---- Unconstrained optima ---------------------------------------------------------------

  ghost function OptimalReward<S, A, F>(k: Kernel<S, A, F>, w: F -> real, h: nat, x: S): real {
    if Idle(k, h, x) then 0.0
    else MaxOver(k.actions(x), a =>
           Expect(k.step(x, a), RewardBranch(k, w, y => OptimalReward(k, w, h - 1, y))))
  }

  ghost predicate AlwaysLegal<S(!new), A, F>(k: Kernel<S, A, F>, pi: Policy<S, A>) {
    forall h: nat, x {:trigger pi(h, x)} | !Idle(k, h, x) :: pi(h, x) in k.actions(x)
  }

  ghost function OptimumAfter<S, A, F>(k: Kernel<S, A, F>, w: F -> real, h: nat, x: S): A -> real {
    a => Expect(k.step(x, a), RewardBranch(k, w, y => OptimalReward(k, w, h, y)))
  }

  /** A best action; `a0` stands in where there is none. */
  ghost function BestPolicy<S, A, F>(k: Kernel<S, A, F>, w: F -> real, a0: A): Policy<S, A> {
    (h: nat, x: S) => if Idle(k, h, x) then a0 else MaximumWitness(k.actions(x), OptimumAfter(k, w, h - 1, x))
  }

  lemma BestPolicyPlays<S, A, F>(k: Kernel<S, A, F>, w: F -> real, a0: A, h: nat, x: S)
    requires !Idle(k, h, x)
    ensures BestPolicy(k, w, a0)(h, x) in k.actions(x)
    ensures OptimalReward(k, w, h, x) == OptimumAfter(k, w, h - 1, x)(BestPolicy(k, w, a0)(h, x))
    ensures forall a | a in k.actions(x) :: OptimumAfter(k, w, h - 1, x)(a) <= OptimalReward(k, w, h, x)
  {
    hide Expect, RewardBranch;
    var f: A -> real := a => Expect(k.step(x, a), RewardBranch(k, w, y => OptimalReward(k, w, h - 1, y)));
    assert OptimalReward(k, w, h, x) == MaxOver(k.actions(x), f);
    assert OptimumAfter(k, w, h - 1, x) == f;
    var best := MaximumWitness(k.actions(x), f);
    assert BestPolicy(k, w, a0)(h, x) == best;
  }

  ghost predicate NoneBetter<S(!new), A, F>(k: Kernel<S, A, F>, w: F -> real, pi: Policy<S, A>, h: nat) {
    forall x :: Reward(k, w, pi, h, x) <= OptimalReward(k, w, h, x)
  }

  lemma NoneBetterAt<S(!new), A(!new), F>(k: Kernel<S, A, F>, w: F -> real, pi: Policy<S, A>, a0: A, h: nat, x: S)
    requires PositiveKernel(k) && AlwaysLegal(k, pi) && NoneBetter(k, w, pi, h)
    ensures Reward(k, w, pi, h + 1, x) <= OptimalReward(k, w, h + 1, x)
  {
    if !Idle(k, h + 1, x) {
      hide OptimalReward, BestPolicy;
      var a := pi(h + 1, x);
      BestPolicyPlays(k, w, a0, h + 1, x);
      var os := k.step(x, a);
      var own, best: S -> real := y => Reward(k, w, pi, h, y), y => OptimalReward(k, w, h, y);
      forall i | 0 <= i < |os|
        ensures RewardBranch(k, w, own)(os[i].atom) <= RewardBranch(k, w, best)(os[i].atom)
      {
        assert own(os[i].atom.next) <= best(os[i].atom.next);
      }
      ExpectMonotone(os, RewardBranch(k, w, own), RewardBranch(k, w, best));
      assert a in k.actions(x);
    }
  }

  /** The optimum is the best reward of legal policies: none exceeds it anywhere and one attains it
      everywhere. */
  lemma OptimumIsBest<S(!new), A(!new), F>(k: Kernel<S, A, F>, w: F -> real, a0: A)
    requires PositiveKernel(k)
    ensures forall pi: Policy<S, A>, h: nat, x | AlwaysLegal(k, pi) :: Reward(k, w, pi, h, x) <= OptimalReward(k, w, h, x)
    ensures AlwaysLegal(k, BestPolicy(k, w, a0))
    ensures forall h: nat, x :: Reward(k, w, BestPolicy(k, w, a0), h, x) == OptimalReward(k, w, h, x)
  {
    forall pi: Policy<S, A>, h: nat, x | AlwaysLegal(k, pi)
      ensures Reward(k, w, pi, h, x) <= OptimalReward(k, w, h, x)
    {
      LegalIsNoBetter(k, w, pi, a0, h);
    }
    forall h: nat, x
      ensures !Idle(k, h, x) ==> BestPolicy(k, w, a0)(h, x) in k.actions(x)
      ensures Reward(k, w, BestPolicy(k, w, a0), h, x) == OptimalReward(k, w, h, x)
    {
      BestAttains(k, w, a0, h);
      if !Idle(k, h, x) {
        BestPolicyPlays(k, w, a0, h, x);
      }
    }
  }

  lemma LegalIsNoBetter<S(!new), A(!new), F>(k: Kernel<S, A, F>, w: F -> real, pi: Policy<S, A>, a0: A, h: nat)
    requires PositiveKernel(k) && AlwaysLegal(k, pi)
    ensures NoneBetter(k, w, pi, h)
  {
    assert NoneBetter(k, w, pi, 0);
    hide PositiveKernel, AlwaysLegal, Reward, OptimalReward;
    for n: nat := 0 to h
      invariant NoneBetter(k, w, pi, n)
    {
      var next: nat := n + 1;
      forall x
        ensures Reward(k, w, pi, next, x) <= OptimalReward(k, w, next, x)
      {
        NoneBetterAt(k, w, pi, a0, n, x);
      }
    }
  }

  ghost predicate BestHere<S(!new), A, F>(k: Kernel<S, A, F>, w: F -> real, a0: A, h: nat) {
    forall x :: Reward(k, w, BestPolicy(k, w, a0), h, x) == OptimalReward(k, w, h, x)
  }

  lemma BestAttainsAt<S(!new), A, F>(k: Kernel<S, A, F>, w: F -> real, a0: A, h: nat, x: S)
    requires BestHere(k, w, a0, h)
    ensures Reward(k, w, BestPolicy(k, w, a0), h + 1, x) == OptimalReward(k, w, h + 1, x)
  {
    if !Idle(k, h + 1, x) {
      hide OptimalReward, BestPolicy;
      var pi := BestPolicy(k, w, a0);
      BestPolicyPlays(k, w, a0, h + 1, x);
      var os := k.step(x, pi(h + 1, x));
      var own, best: S -> real := y => Reward(k, w, pi, h, y), y => OptimalReward(k, w, h, y);
      forall i | 0 <= i < |os|
        ensures RewardBranch(k, w, own)(os[i].atom) == RewardBranch(k, w, best)(os[i].atom)
      {
        assert own(os[i].atom.next) == best(os[i].atom.next);
      }
      ExpectCongruent(os, RewardBranch(k, w, own), RewardBranch(k, w, best));
    }
  }

  lemma BestAttains<S(!new), A, F>(k: Kernel<S, A, F>, w: F -> real, a0: A, h: nat)
    ensures BestHere(k, w, a0, h)
  {
    assert BestHere(k, w, a0, 0);
    hide Reward, OptimalReward;
    for n: nat := 0 to h
      invariant BestHere(k, w, a0, n)
    {
      var next: nat := n + 1;
      forall x
        ensures Reward(k, w, BestPolicy(k, w, a0), next, x) == OptimalReward(k, w, next, x)
      {
        BestAttainsAt(k, w, a0, n, x);
      }
    }
  }

  /** The optimum of the quotient, which may only use the semantic actions `labels(xc)`. */
  ghost function QuotientOptimum<G, S, A, F>(
      k: Kernel<S, A, F>, c: Canonicalizer<G, S>, labels: S -> set<A>, w: F -> real, h: nat, xc: S): real
  {
    if Idle(k, h, xc) || labels(xc) == {} then 0.0
    else MaxOver(labels(xc), a =>
           Expect(Mapped(k.step(xc, a), c.rep), RewardBranch(k, w, y => QuotientOptimum(k, c, labels, w, h - 1, y))))
  }

  ghost predicate LabelsComplete<G(!new), S, A(!new), F>(
      k: Kernel<S, A, F>, ga: GroupAction<G, S, A>, labels: S -> set<A>, xc: S)
  {
    labels(xc) <= k.actions(xc) && Partitions(labels(xc), a => StabilizerOrbit(ga, xc, a), k.actions(xc))
  }

  /** The stabilizer orbits of the labels partition the legal actions of each active representative. */
  ghost predicate CompleteLabels<G(!new), S(!new), A(!new), F(!new)>(
      k: Kernel<S, A, F>, ga: GroupAction<G, S, A>, nodes: seq<Node<S>>, c: Canonicalizer<G, S>, labels: S -> set<A>)
  {
    forall h: nat, x {:trigger InGraph(nodes, h, x), LabelsComplete(k, ga, labels, c.rep(x))} |
      InGraph(nodes, h, x) && !Idle(k, h, x) :: LabelsComplete(k, ga, labels, c.rep(x))
  }

  ghost predicate OptimaAgree<G(!new), S(!new), A, F>(
      k: Kernel<S, A, F>, nodes: seq<Node<S>>, c: Canonicalizer<G, S>, labels: S -> set<A>, w: F -> real, h: nat)
  {
    forall x | InGraph(nodes, h, x) ::
      OptimalReward(k, w, h, x) == QuotientOptimum(k, c, labels, w, h, c.rep(x))
  }

  /** Every legal ground action lies in the support of some semantic action, and conversely. */
  lemma LabelsCover<G(!new), S(!new), A(!new), F(!new)>(
      k: Kernel<S, A, F>, ga: GroupAction<G, S, A>, nodes: seq<Node<S>>, c: Canonicalizer<G, S>,
      labels: S -> set<A>, h: nat, x: S, b: A)
    returns (l: A)
    requires ExactQuotient(k, ga, nodes, c) && CompleteLabels(k, ga, nodes, c, labels)
    requires InGraph(nodes, h, x) && !Idle(k, h, x) && b in k.actions(x)
    ensures l in labels(c.rep(x)) && b in Support(ga, x, c.rep(x), l)
  {
    var t := c.via(x);
    assert Equivariant(k, ga, nodes, t, h, x);
    assert LabelsComplete(k, ga, labels, c.rep(x));
    var d := ga.onAction(t, b);
    assert d in Image(ga, t, k.actions(x));
    l :| l in labels(c.rep(x)) && d in StabilizerOrbit(ga, c.rep(x), l);
    TransporterMeetsOrbit(ga, x, c.rep(x), l, t, b);
  }

  lemma LabelsLegal<G(!new), S(!new), A(!new), F(!new)>(
      k: Kernel<S, A, F>, ga: GroupAction<G, S, A>, nodes: seq<Node<S>>, c: Canonicalizer<G, S>,
      labels: S -> set<A>, h: nat, x: S)
    requires CompleteLabels(k, ga, nodes, c, labels) && InGraph(nodes, h, x) && !Idle(k, h, x)
    ensures labels(c.rep(x)) <= k.actions(c.rep(x))
  {
    assert LabelsComplete(k, ga, labels, c.rep(x));
  }

  /** For any agreeing continuations, the best ground step and the best semantic step are equal. */
  lemma BestStepsAgree<G(!new), S(!new), A(!new), F(!new)>(
      k: Kernel<S, A, F>, ga: GroupAction<G, S, A>, nodes: seq<Node<S>>, c: Canonicalizer<G, S>,
      labels: S -> set<A>, w: F -> real, h: nat, x: S, ground: S -> real, quotient: S -> real,
      f: A -> real, g: A -> real)
    requires ExactQuotient(k, ga, nodes, c) && CompleteLabels(k, ga, nodes, c, labels)
    requires InGraph(nodes, h, x) && !Idle(k, h, x) && Agree(nodes, c, h - 1, ground, quotient)
    requires forall b :: f(b) == Expect(k.step(x, b), RewardBranch(k, w, ground))
    requires forall a :: g(a) == Expect(Mapped(k.step(c.rep(x), a), c.rep), RewardBranch(k, w, quotient))
    ensures labels(c.rep(x)) != {} && MaxOver(k.actions(x), f) == MaxOver(labels(c.rep(x)), g)
  {
    var xc := c.rep(x);
    LabelsLegal(k, ga, nodes, c, labels, h, x);
    forall b | b in k.actions(x)
      ensures Attains(labels(xc), g, f(b))
    {
      var l := LabelsCover(k, ga, nodes, c, labels, h, x, b);
      SupportStepValue(k, ga, nodes, c, h, x, l, b, w, ground, quotient);
      assert g(l) == f(b);
    }
    forall l | l in labels(xc)
      ensures Attains(k.actions(x), f, g(l))
    {
      SupportInhabited(ga, c, x, l);
      var b := ga.onAction(ga.inverse(c.via(x)), l);
      SupportStepValue(k, ga, nodes, c, h, x, l, b, w, ground, quotient);
      assert f(b) == g(l);
    }
    var b :| b in k.actions(x);
    assert Attains(labels(xc), g, f(b));
    EqualMaxima(k.actions(x), f, labels(xc), g);
  }

  lemma OptimumStepAt<G(!new), S(!new), A(!new), F(!new)>(
      k: Kernel<S, A, F>, ga: GroupAction<G, S, A>, nodes: seq<Node<S>>, c: Canonicalizer<G, S>,
      labels: S -> set<A>, w: F -> real, h: nat, x: S)
    requires ExactQuotient(k, ga, nodes, c) && CompleteLabels(k, ga, nodes, c, labels)
    requires InGraph(nodes, h + 1, x) && OptimaAgree(k, nodes, c, labels, w, h)
    ensures OptimalReward(k, w, h + 1, x) == QuotientOptimum(k, c, labels, w, h + 1, c.rep(x))
  {
    CanonicalNode(k, ga, nodes, c, h + 1, x);
    if !Idle(k, h + 1, x) {
      var xc := c.rep(x);
      var ground, quotient := y => OptimalReward(k, w, h, y), y => QuotientOptimum(k, c, labels, w, h, y);
      BestStepsAgree(k, ga, nodes, c, labels, w, h + 1, x, ground, quotient,
                     b => Expect(k.step(x, b), RewardBranch(k, w, ground)),
                     a => Expect(Mapped(k.step(xc, a), c.rep), RewardBranch(k, w, quotient)));
    }
  }

  /** Zero action-restriction gap: planning with one semantic action per stabilizer orbit loses
      nothing against planning with every ground action, at every horizon and every node. */
  lemma NoActionRestrictionGap<G(!new), S(!new), A(!new), F(!new)>(
      k: Kernel<S, A, F>, ga: GroupAction<G, S, A>, nodes: seq<Node<S>>, c: Canonicalizer<G, S>,
      labels: S -> set<A>, w: F -> real, h: nat)
    requires ExactQuotient(k, ga, nodes, c) && CompleteLabels(k, ga, nodes, c, labels)
    ensures OptimaAgree(k, nodes, c, labels, w, h)
  {
    var j: nat := 0;
    while j < h
      invariant j <= h
      invariant OptimaAgree(k, nodes, c, labels, w, j)
    {
      forall x | InGraph(nodes, j + 1, x)
        ensures OptimalReward(k, w, j + 1, x) == QuotientOptimum(k, c, labels, w, j + 1, c.rep(x))
      {
        OptimumStepAt(k, ga, nodes, c, labels, w, j, x);
      }
      j := j + 1;
    }
  }

  /** The first action of every stabilizer orbit. */
  ghost function CanonicalLabels<G(!new), S, A, F>(
      k: Kernel<S, A, F>, ga: GroupAction<G, S, A>, before: (A, A) -> bool): S -> set<A>
  {
    xc => LeastLabels(ga, before, xc, k.actions(xc))
  }

  /** The canonical actions of an exact quotient are complete labels, for any order of actions. */
  lemma LeastLabelsAreComplete<G(!new), S(!new), A(!new), F(!new)>(
      k: Kernel<S, A, F>, ga: GroupAction<G, S, A>, nodes: seq<Node<S>>, c: Canonicalizer<G, S>, before: (A, A) -> bool)
    requires ExactQuotient(k, ga, nodes, c) && TotalOrder(before)
    ensures CompleteLabels(k, ga, nodes, c, CanonicalLabels(k, ga, before))
  {
    hide StabilizerOrbit, LeastLabels, Partitions, TotalOrder;
    var labels := CanonicalLabels(k, ga, before);
    forall h: nat, x | InGraph(nodes, h, x) && !Idle(k, h, x)
      ensures LabelsComplete(k, ga, labels, c.rep(x))
    {
      StabilizerPreserves(k, ga, nodes, c, h, x);
      LeastLabelsPartition(ga, before, c.rep(x), k.actions(c.rep(x)));
    }
  }

  lemma StabilizerPreserves<G(!new), S(!new), A(!new), F(!new)>(
      k: Kernel<S, A, F>, ga: GroupAction<G, S, A>, nodes: seq<Node<S>>, c: Canonicalizer<G, S>, h: nat, x: S)
    requires ExactQuotient(k, ga, nodes, c) && InGraph(nodes, h, x)
    ensures Preserved(ga, c.rep(x), k.actions(c.rep(x)))
  {
    CanonicalNode(k, ga, nodes, c, h, x);
    var xc := c.rep(x);
    forall a, s | a in k.actions(xc) && s in ga.elements && ga.onState(s, xc) == xc
      ensures ga.onAction(s, a) in k.actions(xc)
    {
      assert Equivariant(k, ga, nodes, s, h, xc);
      assert ga.onAction(s, a) in Image(ga, s, k.actions(xc));
    }
  }

  /** So planning with the canonical actions of an exact quotient loses nothing. */
  lemma CanonicalActionsLoseNothing<G(!new), S(!new), A(!new), F(!new)>(
      k: Kernel<S, A, F>, ga: GroupAction<G, S, A>, nodes: seq<Node<S>>, c: Canonicalizer<G, S>,
      before: (A, A) -> bool, w: F -> real, h: nat)
    requires ExactQuotient(k, ga, nodes, c) && TotalOrder(before)
    ensures OptimaAgree(k, nodes, c, CanonicalLabels(k, ga, before), w, h)
  {
    hide ExactQuotient, TotalOrder, LeastLabels, CompleteLabels, OptimaAgree;
    LeastLabelsAreComplete(k, ga, nodes, c, before);
    NoActionRestrictionGap(k, ga, nodes, c, CanonicalLabels(k, ga, before), w, h);
  }
}
