/** When a quotient's deterministic values are all of the ground's: a condition on which members of
    an orbit can be reached together, and a kernel that breaks it. */
module FrontierGap {
  import opened CellModels
  import opened Outcomes
  import opened Symmetry
  import opened QuotientValues

  // ---- When equality holds ----------------------------------------------------------------

  /** State-time pairs of the graph, closed under every action. */
  ghost predicate ReachClosed<S(!new), A(!new), F>(k: Kernel<S, A, F>, nodes: seq<Node<S>>, reach: set<(nat, S)>) {
    && (forall n: nat, y {:trigger (n, y) in reach} | (n, y) in reach :: InGraph(nodes, n, y))
    && (forall n: nat, y, a, i {:trigger (n, y) in reach, k.step(y, a)[i]} |
          (n, y) in reach && n > 0 && !k.terminal(y) && a in k.actions(y) && 0 <= i < |k.step(y, a)| ::
          (n - 1, k.step(y, a)[i].atom.next) in reach)
  }

  /** No two members of one orbit are reachable with the same time left. */
  ghost predicate Isolated<G, S(!new)>(c: Canonicalizer<G, S>, reach: set<(nat, S)>) {
    forall n: nat, y, z | (n, y) in reach && (n, z) in reach && c.rep(y) == c.rep(z) :: y == z
  }

  ghost predicate SameChoices<S(!new), A, F>(k: Kernel<S, A, F>, reach: set<(nat, S)>, pi: Policy<S, A>, rho: Policy<S, A>) {
    forall n: nat, y {:trigger pi(n, y)} | (n, y) in reach && !Idle(k, n, y) :: pi(n, y) == rho(n, y)
  }

  /** Policies that agree on a closed set have the same values there. */
  lemma {:induction false} SameChoicesSameValue<S(!new), A(!new), F(!new)>(
      k: Kernel<S, A, F>, nodes: seq<Node<S>>, reach: set<(nat, S)>, w: F -> real, pi: Policy<S, A>, rho: Policy<S, A>, h: nat, x: S)
    requires ReachClosed(k, nodes, reach) && SameChoices(k, reach, pi, rho) && Legal(k, nodes, pi) && (h, x) in reach
    ensures Reward(k, w, pi, h, x) == Reward(k, w, rho, h, x) && Failure(k, pi, h, x) == Failure(k, rho, h, x)
    decreases h
  {
    if !Idle(k, h, x) {
      var a := pi(h, x);
      assert rho(h, x) == a && InGraph(nodes, h, x) && a in k.actions(x);
      var os := k.step(x, a);
      var n := h - 1;
      forall i | 0 <= i < |os|
        ensures Reward(k, w, pi, n, os[i].atom.next) == Reward(k, w, rho, n, os[i].atom.next)
        ensures Failure(k, pi, n, os[i].atom.next) == Failure(k, rho, n, os[i].atom.next)
      {
        assert (n, k.step(x, a)[i].atom.next) in reach;
        SameChoicesSameValue(k, nodes, reach, w, pi, rho, n, os[i].atom.next);
      }
      ExpectCongruent(os, RewardBranch(k, w, y => Reward(k, w, pi, n, y)), RewardBranch(k, w, y => Reward(k, w, rho, n, y)));
      ExpectCongruent(os, FailureBranch(k, y => Failure(k, pi, n, y)), FailureBranch(k, y => Failure(k, rho, n, y)));
    }
  }

  ghost predicate MemberAt<G, S>(c: Canonicalizer<G, S>, reach: set<(nat, S)>, n: nat, xc: S, y: S) {
    (n, y) in reach && c.rep(y) == xc
  }

  /** The quotient policy that plays what the ground policy plays at the one reachable member of
      each orbit, and anything legal elsewhere. */
  ghost function PushedForward<G(!new), S(!new), A(!new), F>(
      k: Kernel<S, A, F>, ga: GroupAction<G, S, A>, c: Canonicalizer<G, S>, reach: set<(nat, S)>, pi: Policy<S, A>,
      n: nat, xc: S): A
  {
    if exists y :: MemberAt(c, reach, n, xc, y) && !Idle(k, n, y) then
      var y :| MemberAt(c, reach, n, xc, y) && !Idle(k, n, y);
      ga.onAction(c.via(y), pi(n, y))
    else if k.actions(xc) != {} then
      var a :| a in k.actions(xc); a
    else pi(n, xc)
  }

  ghost function Pushed<G(!new), S(!new), A(!new), F>(
      k: Kernel<S, A, F>, ga: GroupAction<G, S, A>, c: Canonicalizer<G, S>, reach: set<(nat, S)>, pi: Policy<S, A>): Policy<S, A>
  {
    (n: nat, xc: S) => PushedForward(k, ga, c, reach, pi, n, xc)
  }

  lemma PushedForwardAt<G(!new), S(!new), A(!new), F(!new)>(
      k: Kernel<S, A, F>, ga: GroupAction<G, S, A>, nodes: seq<Node<S>>, c: Canonicalizer<G, S>,
      reach: set<(nat, S)>, pi: Policy<S, A>, n: nat, y: S)
    requires ExactQuotient(k, ga, nodes, c) && ReachClosed(k, nodes, reach) && Isolated(c, reach)
    requires (n, y) in reach && !Idle(k, n, y)
    ensures PushedForward(k, ga, c, reach, pi, n, c.rep(y)) == ga.onAction(c.via(y), pi(n, y))
  {
    assert MemberAt(c, reach, n, c.rep(y), y);
  }

  lemma PushedForwardIsLegal<G(!new), S(!new), A(!new), F(!new)>(
      k: Kernel<S, A, F>, ga: GroupAction<G, S, A>, nodes: seq<Node<S>>, c: Canonicalizer<G, S>,
      reach: set<(nat, S)>, pi: Policy<S, A>)
    requires ExactQuotient(k, ga, nodes, c) && ReachClosed(k, nodes, reach) && Legal(k, nodes, pi)
    ensures LegalQuotientPolicy(k, nodes, c, Pushed(k, ga, c, reach, pi))
  {
    var sigma := Pushed(k, ga, c, reach, pi);
    forall n: nat, x | InGraph(nodes, n, x) && !Idle(k, n, x)
      ensures sigma(n, c.rep(x)) in k.actions(c.rep(x))
    {
      CanonicalNode(k, ga, nodes, c, n, x);
      var xc := c.rep(x);
      if exists y :: MemberAt(c, reach, n, xc, y) && !Idle(k, n, y) {
        var y :| MemberAt(c, reach, n, xc, y) && !Idle(k, n, y) && sigma(n, xc) == ga.onAction(c.via(y), pi(n, y));
        assert InGraph(nodes, n, y);
        assert Equivariant(k, ga, nodes, c.via(y), n, y);
        assert ga.onAction(c.via(y), pi(n, y)) in Image(ga, c.via(y), k.actions(y));
      }
    }
  }

  /** If no two members of an orbit can be reached together, the ground's achievable values at the
      start are exactly the quotient's, and with them frontier and constrained optima. */
  lemma IsolatedOrbitsHaveNoGap<G(!new), S(!new), A(!new), F(!new)>(
      k: Kernel<S, A, F>, ga: GroupAction<G, S, A>, nodes: seq<Node<S>>, c: Canonicalizer<G, S>,
      reach: set<(nat, S)>, w: F -> real, h: nat, x: S, v: Value)
    requires ExactQuotient(k, ga, nodes, c) && ReachClosed(k, nodes, reach) && Isolated(c, reach) && (h, x) in reach
    ensures Achievable(k, nodes, w, h, x, v) <==> QuotientValue(k, nodes, c, w, h, c.rep(x), v)
  {
    hide ExactQuotient, LegalQuotientPolicy, Consistent, QuotientReward, QuotientFailure, Reward, Failure, PushedForward, Isolated;
    assert InGraph(nodes, h, x);
    if QuotientValue(k, nodes, c, w, h, c.rep(x), v) {
      QuotientValueIsAchievable(k, ga, nodes, c, w, h, x, v);
    }
    if Achievable(k, nodes, w, h, x, v) {
      var pi: Policy<S, A> :| Achieves(k, nodes, w, pi, h, x, v);
      var sigma := Pushed(k, ga, c, reach, pi);
      var rho := Selection(ga, c, sigma);
      PushedForwardIsLegal(k, ga, nodes, c, reach, pi);
      forall n: nat, y | (n, y) in reach && !Idle(k, n, y)
        ensures pi(n, y) == rho(n, y)
      {
        PushedForwardAt(k, ga, nodes, c, reach, pi, n, y);
        UndoneByInverse(k, ga, nodes, c, y, pi(n, y));
      }
      SameChoicesSameValue(k, nodes, reach, w, pi, rho, h, x);
      SelectionIsExact(k, ga, nodes, c, w, sigma, h);
      assert QuotientAchieves(k, nodes, c, w, sigma, h, c.rep(x), v);
    }
  }

  lemma UndoneByInverse<G(!new), S(!new), A(!new), F(!new)>(
      k: Kernel<S, A, F>, ga: GroupAction<G, S, A>, nodes: seq<Node<S>>, c: Canonicalizer<G, S>, y: S, a: A)
    requires ExactQuotient(k, ga, nodes, c)
    ensures ga.onAction(ga.inverse(c.via(y)), ga.onAction(c.via(y), a)) == a
  {
    assert c.via(y) in ga.elements;
  }

  // ---- One best policy --------------------------------------------------------------------

  ghost function RewardStep<S, A, F>(k: Kernel<S, A, F>, w: F -> real, pi: Policy<S, A>, h: nat, x: S, a: A): real
    requires h > 0
  {
    Expect(k.step(x, a), RewardBranch(k, w, y => Reward(k, w, pi, h - 1, y)))
  }

  ghost function FailureStep<S, A, F>(k: Kernel<S, A, F>, pi: Policy<S, A>, h: nat, x: S, a: A): real
    requires h > 0
  {
    Expect(k.step(x, a), FailureBranch(k, y => Failure(k, pi, h - 1, y)))
  }

  /** No single deviation earns more, and none fails less. */
  ghost predicate Dominant<S(!new), A(!new), F>(k: Kernel<S, A, F>, nodes: seq<Node<S>>, w: F -> real, pi: Policy<S, A>) {
    && Legal(k, nodes, pi)
    && forall h: nat, x, a {:trigger InGraph(nodes, h, x), a in k.actions(x)} |
         InGraph(nodes, h, x) && !Idle(k, h, x) && a in k.actions(x) ::
         NoBetter(k, w, pi, h, x, a)
  }

  ghost predicate NoBetter<S, A, F>(k: Kernel<S, A, F>, w: F -> real, pi: Policy<S, A>, h: nat, x: S, a: A) {
    h > 0 ==> RewardStep(k, w, pi, h, x, a) <= Reward(k, w, pi, h, x) && Failure(k, pi, h, x) <= FailureStep(k, pi, h, x, a)
  }

  /** Then no policy at all earns more or fails less, from any node. */
  lemma {:induction false} DominantBeatsAll<S(!new), A(!new), F>(
      k: Kernel<S, A, F>, nodes: seq<Node<S>>, w: F -> real, pi: Policy<S, A>, rho: Policy<S, A>, h: nat, x: S)
    requires PositiveKernel(k) && ClosedGraph(k, nodes) && Dominant(k, nodes, w, pi) && Legal(k, nodes, rho)
    requires InGraph(nodes, h, x)
    ensures Reward(k, w, rho, h, x) <= Reward(k, w, pi, h, x) && Failure(k, pi, h, x) <= Failure(k, rho, h, x)
    decreases h
  {
    if !Idle(k, h, x) {
      var a, n := rho(h, x), h - 1;
      assert a in k.actions(x) && NoBetter(k, w, pi, h, x, a);
      var os := k.step(x, a);
      forall i | 0 <= i < |os|
        ensures Reward(k, w, rho, n, os[i].atom.next) <= Reward(k, w, pi, n, os[i].atom.next)
        ensures Failure(k, pi, n, os[i].atom.next) <= Failure(k, rho, n, os[i].atom.next)
      {
        assert InGraph(nodes, n, k.step(x, a)[i].atom.next);
        DominantBeatsAll(k, nodes, w, pi, rho, n, os[i].atom.next);
      }
      assert Positive(os);
      ExpectMonotone(os, RewardBranch(k, w, y => Reward(k, w, rho, n, y)), RewardBranch(k, w, y => Reward(k, w, pi, n, y)));
      ExpectMonotone(os, FailureBranch(k, y => Failure(k, pi, n, y)), FailureBranch(k, y => Failure(k, rho, n, y)));
    }
  }

  ghost predicate OnQuotientFrontier<G, S(!new), A(!new), F>(
      k: Kernel<S, A, F>, nodes: seq<Node<S>>, c: Canonicalizer<G, S>, w: F -> real, h: nat, xc: S, v: Value)
  {
    QuotientValue(k, nodes, c, w, h, xc, v) && forall u | QuotientValue(k, nodes, c, w, h, xc, u) :: !Dominates(u, v)
  }

  ghost predicate QuotientOptimumWithin<G, S(!new), A(!new), F>(
      k: Kernel<S, A, F>, nodes: seq<Node<S>>, c: Canonicalizer<G, S>, w: F -> real, h: nat, xc: S, delta: real, v: Value)
  {
    && QuotientValue(k, nodes, c, w, h, xc, v) && v.failure <= delta
    && forall u | QuotientValue(k, nodes, c, w, h, xc, u) && u.failure <= delta :: u.reward <= v.reward
  }

  /** One value that no other beats in either respect. */
  ghost predicate Unbeaten<S(!new), A(!new), F>(k: Kernel<S, A, F>, nodes: seq<Node<S>>, w: F -> real, h: nat, x: S, v: Value) {
    Achievable(k, nodes, w, h, x, v) && forall u | Achievable(k, nodes, w, h, x, u) :: u.reward <= v.reward && v.failure <= u.failure
  }

  /** If some orbit-consistent policy is dominant, ground and quotient have the same one-point
      frontier and the same constrained rewards under every risk bound, at every node. */
  lemma DominantClosesGap<G(!new), S(!new), A(!new), F(!new)>(
      k: Kernel<S, A, F>, ga: GroupAction<G, S, A>, nodes: seq<Node<S>>, c: Canonicalizer<G, S>,
      w: F -> real, sigma: Policy<S, A>, pi: Policy<S, A>, h: nat, x: S)
    requires ExactQuotient(k, ga, nodes, c) && PositiveKernel(k) && InGraph(nodes, h, x)
    requires LegalQuotientPolicy(k, nodes, c, sigma) && Consistent(k, ga, nodes, c, sigma, pi) && Dominant(k, nodes, w, pi)
    ensures var v := Value(Reward(k, w, pi, h, x), Failure(k, pi, h, x));
            && Unbeaten(k, nodes, w, h, x, v)
            && (forall u :: OnFrontier(k, nodes, w, h, x, u) <==> u == v)
            && (forall u :: OnQuotientFrontier(k, nodes, c, w, h, c.rep(x), u) <==> u == v)
  {
    hide ExactQuotient, LegalQuotientPolicy, Consistent, Reward, Failure, QuotientReward, QuotientFailure, PositiveKernel, Legal;
    var v := Value(Reward(k, w, pi, h, x), Failure(k, pi, h, x));
    assert Legal(k, nodes, pi) && ClosedGraph(k, nodes) by { ExactIsClosed(k, ga, nodes, c); }
    assert Achieves(k, nodes, w, pi, h, x, v);
    hide Dominant, Achieves;
    forall u | Achievable(k, nodes, w, h, x, u)
      ensures u.reward <= v.reward && v.failure <= u.failure
    {
      Outdone(k, nodes, w, pi, h, x, u);
    }
    assert ConsistentAchieves(k, ga, nodes, c, w, sigma, pi, h, x, v);
    QuotientValuesAreConsistentValues(k, ga, nodes, c, w, h, x, v);
    forall u | QuotientValue(k, nodes, c, w, h, c.rep(x), u)
      ensures Achievable(k, nodes, w, h, x, u)
    {
      QuotientValueIsAchievable(k, ga, nodes, c, w, h, x, u);
    }
    hide Achievable, QuotientValue;
    forall u | Achievable(k, nodes, w, h, x, u) && u != v
      ensures Dominates(v, u)
    {
    }
  }

  lemma ExactIsClosed<G(!new), S(!new), A(!new), F(!new)>(
      k: Kernel<S, A, F>, ga: GroupAction<G, S, A>, nodes: seq<Node<S>>, c: Canonicalizer<G, S>)
    requires ExactQuotient(k, ga, nodes, c)
    ensures ClosedGraph(k, nodes)
  {
  }

  lemma Outdone<S(!new), A(!new), F>(
      k: Kernel<S, A, F>, nodes: seq<Node<S>>, w: F -> real, pi: Policy<S, A>, h: nat, x: S, u: Value)
    requires PositiveKernel(k) && ClosedGraph(k, nodes) && Dominant(k, nodes, w, pi) && InGraph(nodes, h, x)
    requires Achievable(k, nodes, w, h, x, u)
    ensures u.reward <= Reward(k, w, pi, h, x) && Failure(k, pi, h, x) <= u.failure
  {
    hide Dominant, PositiveKernel, ClosedGraph, Reward, Failure;
    var rho: Policy<S, A> :| Achieves(k, nodes, w, rho, h, x, u);
    DominantBeatsAll(k, nodes, w, pi, rho, h, x);
  }

  /** Under such a policy the constrained results agree as well. */
  lemma SameConstrainedOptima<G(!new), S(!new), A(!new), F(!new)>(
      k: Kernel<S, A, F>, nodes: seq<Node<S>>, c: Canonicalizer<G, S>, w: F -> real, h: nat, x: S, xc: S, v: Value, delta: real)
    requires Unbeaten(k, nodes, w, h, x, v) && QuotientValue(k, nodes, c, w, h, xc, v)
    requires forall u | QuotientValue(k, nodes, c, w, h, xc, u) :: Achievable(k, nodes, w, h, x, u)
    ensures (exists u :: ConstrainedOptimum(k, nodes, w, h, x, delta, u)) <==> v.failure <= delta
    ensures (exists u :: QuotientOptimumWithin(k, nodes, c, w, h, xc, delta, u)) <==> v.failure <= delta
    ensures forall u | ConstrainedOptimum(k, nodes, w, h, x, delta, u) :: u.reward == v.reward
    ensures forall u | QuotientOptimumWithin(k, nodes, c, w, h, xc, delta, u) :: u.reward == v.reward
  {
    hide Achievable, QuotientValue;
    if v.failure <= delta {
      assert ConstrainedOptimum(k, nodes, w, h, x, delta, v);
      assert QuotientOptimumWithin(k, nodes, c, w, h, xc, delta, v);
    }
  }

  // ---- When it fails ----------------------------------------------------------------------

  datatype Spot = Start | Left | Right | Done

  datatype Move = Go | Safe | Risky

  function Swap(x: Spot): Spot {
    match x case Left => Right case Right => Left case _ => x
  }

  /** A fair coin leads to one of two mirror-image spots; there a safe move ends with nothing and a
      risky one with reward one and failure. */
  function CoinLaw(x: Spot, a: Move): Outcomes<Spot, real> {
    match (x, a)
    case (Start, Go) => [Outcome(0.5, Atom(Left, 0.0, false, false)), Outcome(0.5, Atom(Right, 0.0, false, false))]
    case (Left, Safe) => [Outcome(1.0, Atom(Done, 0.0, false, true))]
    case (Left, Risky) => [Outcome(1.0, Atom(Done, 1.0, true, true))]
    case (Right, Safe) => [Outcome(1.0, Atom(Done, 0.0, false, true))]
    case (Right, Risky) => [Outcome(1.0, Atom(Done, 1.0, true, true))]
    case _ => []
  }

  function Moves(x: Spot): set<Move> {
    match x case Start => {Go} case Done => {} case _ => {Safe, Risky}
  }

  function Coin(): Kernel<Spot, Move, real> {
    Kernel((x: Spot) => Moves(x), (x, a) => CoinLaw(x, a), (x: Spot) => x.Done?)
  }

  function Mirror(): GroupAction<bool, Spot, Move> {
    GroupAction([false, true], (g, x) => if g then Swap(x) else x, (g, a) => a, (g, h) => g != h, g => g)
  }

  function LeftFirst(): Canonicalizer<bool, Spot> {
    Canonicalizer((x: Spot) => if x == Right then Left else x, (x: Spot) => x == Right)
  }

  const NODES: seq<Node<Spot>> := [
    Node(2, Start, false, false), Node(1, Left, false, false), Node(1, Right, false, false), Node(0, Done, true, false)]

  lemma NodesAre(h: nat, x: Spot)
    ensures InGraph(NODES, h, x) <==> (h, x) in {(2, Start), (1, Left), (1, Right), (0, Done)}
  {
    assert NODES[0] in NODES && NODES[1] in NODES && NODES[2] in NODES && NODES[3] in NODES;
  }

  lemma CoinIsEquivariant(g: bool, x: Spot, a: Move)
    requires a in Moves(x)
    ensures StepEquivariant(Coin(), Mirror(), g, x, a)
  {
    var here, there := Mapped(CoinLaw(x, a), StateMap(Mirror(), g)), CoinLaw(if g then Swap(x) else x, a);
    if x.Start? {
      var l, r := Outcome(0.5, Atom(Left, 0.0, false, false)), Outcome(0.5, Atom(Right, 0.0, false, false));
      assert here == if g then [r, l] else [l, r];
      assert multiset(here) == multiset(there);
      PermutationSameMass(here, there);
    } else {
      assert here == there;
    }
  }

  lemma MirrorIsAGroup()
    ensures GroupLaws(Mirror()) && CanonicalizerLaws(Mirror(), LeftFirst())
  {
    assert forall g: bool :: g in Mirror().elements;
  }

  lemma CoinIsClosed()
    ensures ClosedGraph(Coin(), NODES)
  {
    hide InGraph;
    forall h: nat, x, a, i | h > 0 && InGraph(NODES, h, x) && !x.Done? && a in Moves(x) && 0 <= i < |CoinLaw(x, a)|
      ensures InGraph(NODES, h - 1, CoinLaw(x, a)[i].atom.next)
    {
      NodesAre(h, x);
      NodesAre(h - 1, CoinLaw(x, a)[i].atom.next);
    }
  }

  lemma CoinAt(g: bool, h: nat, x: Spot)
    requires InGraph(NODES, h, x)
    ensures Equivariant(Coin(), Mirror(), NODES, g, h, x)
  {
    hide InGraph, StepEquivariant, CoinLaw;
    NodesAre(h, x);
    NodesAre(h, Swap(x));
    forall a | a in Moves(x)
      ensures StepEquivariant(Coin(), Mirror(), g, x, a)
    {
      CoinIsEquivariant(g, x, a);
    }
    assert Image(Mirror(), g, Moves(x)) == Moves(x);
  }

  lemma CoinIsExact()
    ensures ExactQuotient(Coin(), Mirror(), NODES, LeftFirst())
  {
    hide GroupLaws, CanonicalizerLaws, ClosedGraph, Equivariant, InGraph;
    MirrorIsAGroup();
    CoinIsClosed();
    forall g, h: nat, x | g in Mirror().elements && InGraph(NODES, h, x)
      ensures Equivariant(Coin(), Mirror(), NODES, g, h, x)
    {
      CoinAt(g, h, x);
    }
  }

  function OneSided(): Policy<Spot, Move> {
    (h: nat, x: Spot) => if x == Start then Go else if x == Left then Risky else Safe
  }

  function Unit(): real -> real {
    r => r
  }

  lemma OneSidedIsLegal()
    ensures Legal(Coin(), NODES, OneSided())
  {
    hide InGraph;
    forall h: nat, x | InGraph(NODES, h, x) && !Idle(Coin(), h, x)
      ensures OneSided()(h, x) in Moves(x)
    {
      NodesAre(h, x);
    }
  }

  lemma OneSidedAtSide(x: Spot)
    requires x == Left || x == Right
    ensures Reward(Coin(), Unit(), OneSided(), 1, x) == Failure(Coin(), OneSided(), 1, x) == if x == Left then 1.0 else 0.0
  {
    hide Expect;
    var k, w, pi := Coin(), Unit(), OneSided();
    ExpectOne(CoinLaw(x, pi(1, x))[0], RewardBranch(k, w, y => Reward(k, w, pi, 0, y)));
    ExpectOne(CoinLaw(x, pi(1, x))[0], FailureBranch(k, y => Failure(k, pi, 0, y)));
  }

  /** Risky on the left only: half the reward for half the risk. */
  lemma OneSidedValue()
    ensures Achieves(Coin(), NODES, Unit(), OneSided(), 2, Start, Value(0.5, 0.5))
  {
    hide Expect, Legal;
    var k, w, pi := Coin(), Unit(), OneSided();
    OneSidedIsLegal();
    OneSidedAtSide(Left);
    OneSidedAtSide(Right);
    var os := CoinLaw(Start, Go);
    ExpectTwo(os[0], os[1], RewardBranch(k, w, y => Reward(k, w, pi, 1, y)));
    ExpectTwo(os[0], os[1], FailureBranch(k, y => Failure(k, pi, 1, y)));
  }

  lemma QuotientAtSide(sigma: Policy<Spot, Move>)
    requires sigma(1, Left) == Safe || sigma(1, Left) == Risky
    ensures QuotientReward(Coin(), LeftFirst(), Unit(), sigma, 1, Left) == (if sigma(1, Left) == Risky then 1.0 else 0.0)
    ensures QuotientFailure(Coin(), LeftFirst(), sigma, 1, Left) == (if sigma(1, Left) == Risky then 1.0 else 0.0)
  {
    hide Expect;
    var k, c, w := Coin(), LeftFirst(), Unit();
    var last := Mapped(CoinLaw(Left, sigma(1, Left)), c.rep);
    assert last == [last[0]];
    ExpectOne(last[0], RewardBranch(k, w, y => QuotientReward(k, c, w, sigma, 0, y)));
    ExpectOne(last[0], FailureBranch(k, y => QuotientFailure(k, c, sigma, 0, y)));
  }

  /** A quotient policy is risky on both sides or on neither. */
  lemma QuotientIsAllOrNothing(sigma: Policy<Spot, Move>)
    requires LegalQuotientPolicy(Coin(), NODES, LeftFirst(), sigma)
    ensures var c := LeftFirst();
            var reward, failure := QuotientReward(Coin(), c, Unit(), sigma, 2, Start), QuotientFailure(Coin(), c, sigma, 2, Start);
            (reward == 0.0 && failure == 0.0) || (reward == 1.0 && failure == 1.0)
  {
    hide Expect;
    var k, c, w := Coin(), LeftFirst(), Unit();
    NodesAre(2, Start);
    NodesAre(1, Left);
    assert sigma(2, c.rep(Start)) == Go && sigma(1, c.rep(Left)) in {Safe, Risky};
    QuotientAtSide(sigma);
    var first := Mapped(CoinLaw(Start, Go), c.rep);
    assert first == [first[0], first[1]];
    ExpectTwo(first[0], first[1], RewardBranch(k, w, y => QuotientReward(k, c, w, sigma, 1, y)));
    ExpectTwo(first[0], first[1], FailureBranch(k, y => QuotientFailure(k, c, sigma, 1, y)));
  }

  /** Equality of deterministic values fails in general: this quotient is exact, yet the ground
      reaches half the reward within half the risk, where every quotient policy within that risk
      earns nothing. */
  lemma MixedOrbitsHaveAGap()
    ensures ExactQuotient(Coin(), Mirror(), NODES, LeftFirst()) && InGraph(NODES, 2, Start)
    ensures Achievable(Coin(), NODES, Unit(), 2, Start, Value(0.5, 0.5))
    ensures forall v | QuotientValue(Coin(), NODES, LeftFirst(), Unit(), 2, Start, v) && v.failure <= 0.5 :: v.reward == 0.0
  {
    hide ExactQuotient, LegalQuotientPolicy, QuotientReward, QuotientFailure, Achieves;
    CoinIsExact();
    NodesAre(2, Start);
    OneSidedValue();
    forall v | QuotientValue(Coin(), NODES, LeftFirst(), Unit(), 2, Start, v) && v.failure <= 0.5
      ensures v.reward == 0.0
    {
      var sigma: Policy<Spot, Move> :| QuotientAchieves(Coin(), NODES, LeftFirst(), Unit(), sigma, 2, Start, v);
      QuotientIsAllOrNothing(sigma);
    }
  }
}
