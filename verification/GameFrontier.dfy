/** Frontiers of the 2x2 game with at most three tiles: the merge that is best in every respect
    gives a dominant orbit-consistent policy, so ground and quotient agree at every node. */
module GameFrontier {
  import opened D4
  import opened FrontierGap
  import opened G2048
  import opened GameQuotient
  import opened OrbitClosure
  import opened Outcomes
  import opened QuotientValues
  import opened SmallBoards
  import opened Symmetry

  /** The registered reward weight is nonnegative. */
  ghost predicate NonnegativeWeight(w: real -> real) {
    forall q: real | q >= 0.0 :: w(q) >= 0.0
  }

  /** A 2x2 game with positive, exhaustive spawns. */
  ghost predicate SquareRules(r: Rules) {
    r.size == 2 && r.cap > 0 && PositiveSpawn(r.spawn) && SpawnTotal(r.spawn) == 1.0
  }

  ghost predicate Small(nodes: seq<Node<Game>>) {
    forall h: nat, x {:trigger InGraph(nodes, h, x)} | InGraph(nodes, h, x) :: Tiles(x.board) <= 3
  }

  // ---- The policy -------------------------------------------------------------------------

  ghost function BestMerge(r: Rules, x: Game): Action {
    if a: Action :| Unsurpassed(r, x, a) then a else Merge(0, 1, 0)
  }

  ghost function BestPolicy(r: Rules): Policy<Game, Action> {
    (h: nat, x: Game) => BestMerge(r, x)
  }

  lemma BestMergeIsBest(r: Rules, x: Game)
    requires SquareRules(r) && !x.failed && Merges(x.board, 2) != {} && Tiles(x.board) <= 3
    ensures Unsurpassed(r, x, BestMerge(r, x))
  {
    hide Merges, Unsurpassed, Tiles;
    var b :| b in Merges(x.board, 2);
    SquareMerges(x.board, b);
    var e := SomeCellEmpty(x.board);
    var a := BestExists(r, x, b, e);
  }

  // ---- Goodness of successors -------------------------------------------------------------

  ghost function RewardAhead(r: Rules, w: real -> real, h: nat): Goodness {
    (y: Game) => if y.failed then 0.0
                 else QuotientReward(GameKernel(r), BoardCanonicalizer(r.size), w, BestPolicy(r), h, BoardCanonicalizer(r.size).rep(y))
  }

  ghost function SafetyAhead(r: Rules, h: nat): Goodness {
    (y: Game) => -(if y.failed then 1.0
                   else QuotientFailure(GameKernel(r), BoardCanonicalizer(r.size), BestPolicy(r), h, BoardCanonicalizer(r.size).rep(y)))
  }

  lemma {:induction false} ExpectNonnegative(os: Outcomes<Game, real>, f: Atom<Game, real> -> real)
    requires Positive(os) && forall i | 0 <= i < |os| :: f(os[i].atom) >= 0.0
    ensures Expect(os, f) >= 0.0
  {
    if |os| > 0 {
      assert forall i | 0 <= i < |os| - 1 :: os[1..][i] == os[i + 1];
      ExpectNonnegative(os[1..], f);
      ScaleMonotone(os[0].probability, 0.0, f(os[0].atom));
    }
  }

  lemma {:induction false} ExpectAtMostTotal(os: Outcomes<Game, real>, f: Atom<Game, real> -> real)
    requires Positive(os) && forall i | 0 <= i < |os| :: f(os[i].atom) <= 1.0
    ensures Expect(os, f) <= TotalProbability(os)
  {
    if |os| > 0 {
      assert forall i | 0 <= i < |os| - 1 :: os[1..][i] == os[i + 1];
      ExpectAtMostTotal(os[1..], f);
      ScaleMonotone(os[0].probability, f(os[0].atom), 1.0);
    }
  }

  lemma {:induction false} MappedTotal(os: Outcomes<Game, real>, t: Game -> Game)
    ensures TotalProbability(Mapped(os, t)) == TotalProbability(os)
  {
    if |os| > 0 {
      MappedTotal(os[1..], t);
      assert Mapped(os, t)[1..] == Mapped(os[1..], t);
    }
  }

  lemma LawFacts(r: Rules, x: Game, a: Action)
    requires SquareRules(r)
    ensures Positive(Law(r, x, a)) && TotalProbability(Law(r, x, a)) <= 1.0
    ensures forall i | 0 <= i < |Law(r, x, a)| :: Law(r, x, a)[i].atom.features >= 0.0
  {
    hide Law, MergeReward;
    GameIsPositive(r);
    assert Positive(GameKernel(r).step(x, a));
    forall i | 0 <= i < |Law(r, x, a)|
      ensures Law(r, x, a)[i].atom.features >= 0.0
    {
      LawOutcome(r, x, a, i);
      RewardNonnegative(x.board[a.first], r.cap);
    }
    if !x.failed && a in Merges(x.board, r.size) {
      LawIsStochastic(r, x, a);
    } else {
      NoLaw(r, x, a);
    }
  }

  lemma NoLaw(r: Rules, x: Game, a: Action)
    requires x.failed || a !in Merges(x.board, r.size)
    ensures Law(r, x, a) == [] && TotalProbability(Law(r, x, a)) == 0.0
  {
  }

  lemma RewardNonnegative(rank: nat, cap: nat)
    ensures MergeReward(rank, cap) >= 0.0
  {
    PowerPositive(cap + 1);
  }

  lemma BranchBounds(r: Rules, w: real -> real, os: Outcomes<Game, real>, reward: Game -> real, failure: Game -> real)
    requires Positive(os) && TotalProbability(os) <= 1.0 && NonnegativeWeight(w)
    requires forall i | 0 <= i < |os| :: os[i].atom.features >= 0.0
    requires forall y :: reward(y) >= 0.0 && failure(y) <= 1.0
    ensures Expect(os, RewardBranch(GameKernel(r), w, reward)) >= 0.0
    ensures Expect(os, FailureBranch(GameKernel(r), failure)) <= 1.0
  {
    ExpectNonnegative(os, RewardBranch(GameKernel(r), w, reward));
    ExpectAtMostTotal(os, FailureBranch(GameKernel(r), failure));
  }

  /** Quotient rewards are nonnegative and quotient failures at most one. */
  lemma {:induction false} QuotientBounds(r: Rules, w: real -> real, h: nat, xc: Game)
    requires SquareRules(r) && NonnegativeWeight(w)
    ensures var k, c := GameKernel(r), BoardCanonicalizer(r.size);
            && QuotientReward(k, c, w, BestPolicy(r), h, xc) >= 0.0
            && QuotientFailure(k, c, BestPolicy(r), h, xc) <= 1.0
    decreases h
  {
    hide SquareRules, Law, Merges, CanonicalBoard, BestMerge;
    var k, c, sigma := GameKernel(r), BoardCanonicalizer(r.size), BestPolicy(r);
    if !Idle(k, h, xc) {
      var n := h - 1;
      var a := sigma(h, xc);
      LawFacts(r, xc, a);
      MappedTotal(Law(r, xc, a), c.rep);
      forall y
        ensures QuotientReward(k, c, w, sigma, n, y) >= 0.0 && QuotientFailure(k, c, sigma, n, y) <= 1.0
      {
        QuotientBounds(r, w, n, y);
      }
      var os := Mapped(Law(r, xc, a), c.rep);
      BranchBounds(r, w, os, y => QuotientReward(k, c, w, sigma, n, y), y => QuotientFailure(k, c, sigma, n, y));
    }
  }

  lemma AheadIsFair(r: Rules, w: real -> real, h: nat)
    requires SquareRules(r) && NonnegativeWeight(w)
    ensures Fair(2, RewardAhead(r, w, h)) && Fair(2, SafetyAhead(r, h))
  {
    hide QuotientReward, QuotientFailure, CanonicalBoard, MoveBoard;
    var c := BoardCanonicalizer(2);
    forall y: Game, g: Element
      ensures c.rep(MoveGame(y, 2, g)) == c.rep(y)
    {
      CanonicalInvariant(y.board, 2, g);
    }
    forall y: Game
      ensures RewardAhead(r, w, h)(y) >= 0.0 && SafetyAhead(r, h)(y) >= -1.0
    {
      QuotientBounds(r, w, h, c.rep(y));
    }
  }

  // ---- Steps as goodness ------------------------------------------------------------------

  lemma {:induction false} ExpectShifted(os: Outcomes<Game, real>, f: Atom<Game, real> -> real, g: Atom<Game, real> -> real, c: real)
    requires forall i | 0 <= i < |os| :: f(os[i].atom) == c + g(os[i].atom)
    ensures Expect(os, f) == c * TotalProbability(os) + Expect(os, g)
  {
    if |os| > 0 {
      assert forall i | 0 <= i < |os| - 1 :: os[1..][i] == os[i + 1];
      ExpectShifted(os[1..], f, g, c);
      Shift(os[0].probability, c, g(os[0].atom), TotalProbability(os[1..]));
    }
  }

  lemma Shift(p: real, c: real, x: real, rest: real)
    ensures p * (c + x) + c * rest == c * (p + rest) + p * x
  {
  }

  lemma {:induction false} ExpectNegated(os: Outcomes<Game, real>, f: Atom<Game, real> -> real, g: Atom<Game, real> -> real)
    requires forall i | 0 <= i < |os| :: f(os[i].atom) == -g(os[i].atom)
    ensures Expect(os, f) == -Expect(os, g)
  {
    if |os| > 0 {
      assert forall i | 0 <= i < |os| - 1 :: os[1..][i] == os[i + 1];
      ExpectNegated(os[1..], f, g);
    }
  }

  /** One outcome of a merge at a node, seen with the policy's values one step later. */
  lemma OutcomeIsWorth(
      r: Rules, nodes: seq<Node<Game>>, w: real -> real, pi: Policy<Game, Action>, h: nat, n: nat, x: Game, a: Action, i: nat)
    requires SquareRules(r) && ClosedGraph(GameKernel(r), nodes) && h == n + 1
    requires PolicyAgrees(GameKernel(r), nodes, BoardCanonicalizer(2), w, BestPolicy(r), pi, n)
    requires InGraph(nodes, h, x) && !x.failed && a in Merges(x.board, 2) && i < |Law(r, x, a)| && a.first < |x.board|
    ensures var k, atom := GameKernel(r), Law(r, x, a)[i].atom;
            && RewardBranch(k, w, y => Reward(k, w, pi, n, y))(atom)
               == w(MergeReward(x.board[a.first], r.cap)) + Worth(RewardAhead(r, w, n))(atom)
            && FailureBranch(k, y => Failure(k, pi, n, y))(atom) == -Worth(SafetyAhead(r, n))(atom)
  {
    hide Law, Merges, MergeReward, QuotientReward, QuotientFailure, Reward, Failure, CanonicalBoard, Tiles, BestPolicy, SquareRules, InGraph;
    SizeIsTwo(r);
    OutcomeOfLaw(r, x, a, i);
    var k := GameKernel(r);
    assert k.step(x, a)[i] == Law(r, x, a)[i] && a in k.actions(x);
    assert InGraph(nodes, h - 1, k.step(x, a)[i].atom.next);
  }

  /** What one merge is worth at a node, given that the policy has the quotient's values one step
      later: the merge's own reward and the goodness of what it leaves. */
  lemma StepsAreWorth(r: Rules, nodes: seq<Node<Game>>, w: real -> real, pi: Policy<Game, Action>, h: nat, n: nat, x: Game, a: Action)
    requires SquareRules(r) && ClosedGraph(GameKernel(r), nodes) && h == n + 1
    requires PolicyAgrees(GameKernel(r), nodes, BoardCanonicalizer(2), w, BestPolicy(r), pi, n)
    requires InGraph(nodes, h, x) && !x.failed && a in Merges(x.board, 2)
    ensures a.first < |x.board|
    ensures RewardStep(GameKernel(r), w, pi, h, x, a)
         == w(MergeReward(x.board[a.first], r.cap)) + StepWorth(r, x, a, RewardAhead(r, w, n))
    ensures FailureStep(GameKernel(r), pi, h, x, a) == -StepWorth(r, x, a, SafetyAhead(r, n))
  {
    hide Law, Merges, MergeReward, RewardAhead, SafetyAhead, Reward, Failure, ClosedGraph, PolicyAgrees, SquareRules, InGraph,
      RewardBranch, FailureBranch, Worth;
    var k, os := GameKernel(r), Law(r, x, a);
    LegalLaw(r, x, a);
    var gain := w(MergeReward(x.board[a.first], r.cap));
    var reward, failure := RewardBranch(k, w, y => Reward(k, w, pi, n, y)), FailureBranch(k, y => Failure(k, pi, n, y));
    forall i | 0 <= i < |os|
      ensures reward(os[i].atom) == gain + Worth(RewardAhead(r, w, n))(os[i].atom)
      ensures failure(os[i].atom) == -Worth(SafetyAhead(r, n))(os[i].atom)
    {
      OutcomeIsWorth(r, nodes, w, pi, h, n, x, a, i);
    }
    ExpectShifted(os, reward, Worth(RewardAhead(r, w, n)), gain);
    ExpectNegated(os, failure, Worth(SafetyAhead(r, n)));
  }

  lemma LegalLaw(r: Rules, x: Game, a: Action)
    requires SquareRules(r) && !x.failed && a in Merges(x.board, 2)
    ensures a.first < |x.board| && TotalProbability(Law(r, x, a)) == 1.0
  {
    hide Law;
    MergesAre(x.board, 2, a);
    LawIsStochastic(r, x, a);
  }

  lemma OutcomeOfLaw(r: Rules, x: Game, a: Action, i: nat)
    requires SquareRules(r) && i < |Law(r, x, a)|
    ensures var atom := Law(r, x, a)[i].atom;
            && a.first < |x.board| && atom.features == MergeReward(x.board[a.first], r.cap)
            && atom.failure == atom.terminal == atom.next.failed
  {
    hide Law, Merges, MergeReward, Tiles;
    LawOutcome(r, x, a, i);
  }

  // ---- Dominance --------------------------------------------------------------------------

  ghost function BestGround(r: Rules): Policy<Game, Action> {
    Selection(BoardSymmetries(2), BoardCanonicalizer(2), BestPolicy(r))
  }

  /** The graph of one query of the square game, all of whose boards have at most three tiles. */
  ghost predicate SquareGraph(r: Rules, nodes: seq<Node<Game>>) {
    && SquareRules(r) && Small(nodes) && ClosedGraph(GameKernel(r), nodes)
    && ExactQuotient(GameKernel(r), BoardSymmetries(2), nodes, BoardCanonicalizer(2))
  }

  lemma CanonicalBest(r: Rules, nodes: seq<Node<Game>>, h: nat, x: Game)
    requires SquareGraph(r, nodes) && InGraph(nodes, h, x) && !Idle(GameKernel(r), h, x)
    ensures var xc := BoardCanonicalizer(2).rep(x);
            && Unsurpassed(r, xc, BestPolicy(r)(h, xc)) && Unsurpassed(r, x, BestGround(r)(h, x))
  {
    hide Unsurpassed, CanonicalBoard, CanonicalElement, MoveBoard, Merges, Tiles, Law, BestMerge, ExactQuotient, InGraph, SquareRules, ClosedGraph;
    var k, c := GameKernel(r), BoardCanonicalizer(2);
    CanonicalNode(k, BoardSymmetries(2), nodes, c, h, x);
    var xc := c.rep(x);
    assert Tiles(xc.board) <= 3;
    SizeIsTwo(r);
    BestMergeIsBest(r, xc);
    CanonicalImage(x.board, 2);
    assert MoveGame(x, 2, c.via(x)) == xc;
    BestMoves(r, x, c.via(x), BestMerge(r, xc));
  }

  lemma SizeIsTwo(r: Rules)
    requires SquareRules(r)
    ensures r.size == 2
  {
  }

  lemma BestPolicyIsLegal(r: Rules, nodes: seq<Node<Game>>)
    requires SquareGraph(r, nodes)
    ensures LegalQuotientPolicy(GameKernel(r), nodes, BoardCanonicalizer(2), BestPolicy(r))
  {
    hide SquareGraph, InGraph, Merges, BestMerge, CanonicalBoard;
    var k, c, sigma := GameKernel(r), BoardCanonicalizer(2), BestPolicy(r);
    forall h: nat, x | InGraph(nodes, h, x) && !Idle(k, h, x)
      ensures sigma(h, c.rep(x)) in k.actions(c.rep(x))
    {
      CanonicalBest(r, nodes, h, x);
    }
  }

  lemma GroundAt(r: Rules, nodes: seq<Node<Game>>, w: real -> real, h: nat, x: Game, b: Action)
    requires SquareGraph(r, nodes) && NonnegativeWeight(w)
    requires InGraph(nodes, h, x) && !Idle(GameKernel(r), h, x) && b in GameKernel(r).actions(x)
    ensures BestGround(r)(h, x) in GameKernel(r).actions(x)
    ensures NoBetter(GameKernel(r), w, BestGround(r), h, x, b)
  {
    hide Merges, Law, Tiles, InGraph, StepWorth, MergeReward, BestMerge, CanonicalBoard, CanonicalElement, ExactQuotient, Fair,
      RewardStep, FailureStep, SquareRules, ClosedGraph, PolicyAgrees, LegalQuotientPolicy, BestPolicy, RewardAhead, SafetyAhead, BestGround;
    var k, c, pi := GameKernel(r), BoardCanonicalizer(2), BestGround(r);
    var n, a := h - 1, BestGround(r)(h, x);
    SizeIsTwo(r);
    CanonicalBest(r, nodes, h, x);
    BestGroundIsExact(r, nodes, w, n);
    StepsAreWorth(r, nodes, w, pi, h, n, x, a);
    StepsAreWorth(r, nodes, w, pi, h, n, x, b);
    SameRank(x.board, a, b);
    AheadIsFair(r, w, n);
    assert StepWorth(r, x, b, RewardAhead(r, w, n)) <= StepWorth(r, x, a, RewardAhead(r, w, n));
    assert StepWorth(r, x, b, SafetyAhead(r, n)) <= StepWorth(r, x, a, SafetyAhead(r, n));
    OwnStep(r, w, h, x);
  }

  lemma OwnStep(r: Rules, w: real -> real, h: nat, x: Game)
    requires h > 0 && !Idle(GameKernel(r), h, x)
    ensures Reward(GameKernel(r), w, BestGround(r), h, x) == RewardStep(GameKernel(r), w, BestGround(r), h, x, BestGround(r)(h, x))
    ensures Failure(GameKernel(r), BestGround(r), h, x) == FailureStep(GameKernel(r), BestGround(r), h, x, BestGround(r)(h, x))
  {
    hide BestGround, Law, Merges;
  }

  lemma BestGroundIsExact(r: Rules, nodes: seq<Node<Game>>, w: real -> real, n: nat)
    requires SquareGraph(r, nodes)
    ensures PolicyAgrees(GameKernel(r), nodes, BoardCanonicalizer(2), w, BestPolicy(r), BestGround(r), n)
  {
    hide PolicyAgrees, LegalQuotientPolicy;
    BestPolicyIsLegal(r, nodes);
    SelectionIsExact(GameKernel(r), BoardSymmetries(2), nodes, BoardCanonicalizer(2), w, BestPolicy(r), n);
  }

  lemma BestGroundIsDominant(r: Rules, nodes: seq<Node<Game>>, w: real -> real)
    requires SquareGraph(r, nodes) && NonnegativeWeight(w)
    ensures Dominant(GameKernel(r), nodes, w, BestGround(r))
  {
    hide SquareGraph, InGraph, Merges, NoBetter, BestGround;
    var k := GameKernel(r);
    forall h: nat, x, b {:trigger NoBetter(k, w, BestGround(r), h, x, b)} |
      InGraph(nodes, h, x) && !Idle(k, h, x) && b in k.actions(x)
      ensures BestGround(r)(h, x) in k.actions(x) && NoBetter(k, w, BestGround(r), h, x, b)
    {
      GroundAt(r, nodes, w, h, x, b);
    }
    forall h: nat, x | InGraph(nodes, h, x) && !Idle(k, h, x)
      ensures BestGround(r)(h, x) in k.actions(x)
    {
      var b :| b in k.actions(x);
      GroundAt(r, nodes, w, h, x, b);
    }
  }

  /** At every node of a square game with at most three tiles, for every horizon, rank cap, spawn
      distribution and nonnegative weight: the ground frontier and the quotient frontier are the
      same single point, and the constrained results agree under every risk bound. */
  lemma FrontiersAgree(r: Rules, nodes: seq<Node<Game>>, w: real -> real, h: nat, x: Game) returns (v: Value)
    requires SquareGraph(r, nodes) && NonnegativeWeight(w) && InGraph(nodes, h, x)
    ensures var k, c := GameKernel(r), BoardCanonicalizer(2);
            && (forall u :: OnFrontier(k, nodes, w, h, x, u) <==> u == v)
            && (forall u :: OnQuotientFrontier(k, nodes, c, w, h, c.rep(x), u) <==> u == v)
            && (forall delta: real :: SameConstrained(k, nodes, c, w, h, x, c.rep(x), delta, v))
  {
    hide SquareGraph, OnFrontier, OnQuotientFrontier, Dominant, Consistent, LegalQuotientPolicy, Unbeaten, Achievable, QuotientValue, BestGround;
    var k, ga, c := GameKernel(r), BoardSymmetries(2), BoardCanonicalizer(2);
    GraphFacts(r, nodes);
    BestPolicyIsLegal(r, nodes);
    BestGroundIsConsistent(r, nodes);
    BestGroundIsDominant(r, nodes, w);
    v := Value(Reward(k, w, BestGround(r), h, x), Failure(k, BestGround(r), h, x));
    DominantClosesGap(k, ga, nodes, c, w, BestPolicy(r), BestGround(r), h, x);
    assert OnQuotientFrontier(k, nodes, c, w, h, c.rep(x), v);
    QuotientPoint(k, nodes, c, w, h, c.rep(x), v);
    forall u | QuotientValue(k, nodes, c, w, h, c.rep(x), u)
      ensures Achievable(k, nodes, w, h, x, u)
    {
      QuotientValueIsAchievable(k, ga, nodes, c, w, h, x, u);
    }
    forall delta: real
      ensures SameConstrained(k, nodes, c, w, h, x, c.rep(x), delta, v)
    {
      SameConstrainedOptima<Element, Game, Action, real>(k, nodes, c, w, h, x, c.rep(x), v, delta);
    }
  }

  /** Both constrained problems are solvable exactly when the point meets the bound, and then give
      its reward. */
  ghost predicate SameConstrained(
      k: Kernel<Game, Action, real>, nodes: seq<Node<Game>>, c: Canonicalizer<Element, Game>, w: real -> real,
      h: nat, x: Game, xc: Game, delta: real, v: Value)
  {
    && ((exists u :: ConstrainedOptimum(k, nodes, w, h, x, delta, u)) <==> v.failure <= delta)
    && ((exists u :: QuotientOptimumWithin(k, nodes, c, w, h, xc, delta, u)) <==> v.failure <= delta)
    && (forall u | ConstrainedOptimum(k, nodes, w, h, x, delta, u) :: u.reward == v.reward)
    && (forall u | QuotientOptimumWithin(k, nodes, c, w, h, xc, delta, u) :: u.reward == v.reward)
  }

  lemma QuotientPoint(
      k: Kernel<Game, Action, real>, nodes: seq<Node<Game>>, c: Canonicalizer<Element, Game>, w: real -> real,
      h: nat, xc: Game, v: Value)
    requires OnQuotientFrontier(k, nodes, c, w, h, xc, v)
    ensures QuotientValue(k, nodes, c, w, h, xc, v)
  {
  }

  lemma GraphFacts(r: Rules, nodes: seq<Node<Game>>)
    requires SquareGraph(r, nodes)
    ensures ExactQuotient(GameKernel(r), BoardSymmetries(2), nodes, BoardCanonicalizer(2)) && PositiveKernel(GameKernel(r))
  {
    GameIsPositive(r);
  }

  lemma BestGroundIsConsistent(r: Rules, nodes: seq<Node<Game>>)
    requires SquareGraph(r, nodes)
    ensures Consistent(GameKernel(r), BoardSymmetries(2), nodes, BoardCanonicalizer(2), BestPolicy(r), BestGround(r))
  {
    hide Consistent;
    SelectionIsConsistent(GameKernel(r), BoardSymmetries(2), nodes, BoardCanonicalizer(2), BestPolicy(r));
  }

  // ---- Registered queries -----------------------------------------------------------------

  ghost predicate SmallPairs(pairs: Pairs<Game>) {
    forall p | p in pairs :: Tiles(p.1.board) <= 3
  }

  /** Merging and spawning keep the number of tiles, so a query that starts with at most three
      tiles never reaches a fuller board. */
  lemma SmallQueriesStaySmall(r: Rules, initial: seq<(real, Game)>, horizon: nat, pairs: Pairs<Game>)
    requires SquareRules(r)
    requires Complete(GameKernel(r), BoardSymmetries(2), initial, horizon, pairs)
    requires Least(GameKernel(r), BoardSymmetries(2), initial, horizon, pairs)
    requires forall i | 0 <= i < |initial| && initial[i].0 > 0.0 :: Tiles(initial[i].1.board) <= 3
    ensures SmallPairs(pairs)
  {
    hide Tiles, Law, Merges, MoveBoard, SquareRules;
    var k, ga := GameKernel(r), BoardSymmetries(2);
    var small := set p | p in pairs && Tiles(p.1.board) <= 3;
    forall p, g | p in small && g in ga.elements
      ensures (p.0, ga.onState(g, p.1)) in small
    {
      TilesMove(p.1.board, 2, g);
    }
    forall p | p in small
      ensures Expanded(k, p, small)
    {
      SmallExpands(r, pairs, small, p);
    }
    assert Complete(k, ga, initial, horizon, small);
  }

  lemma SmallExpands(r: Rules, pairs: Pairs<Game>, small: Pairs<Game>, p: (nat, Game))
    requires SquareRules(r) && p in small && Expanded(GameKernel(r), p, pairs)
    requires small == set q | q in pairs && Tiles(q.1.board) <= 3
    ensures Expanded(GameKernel(r), p, small)
  {
    hide Tiles, Law, Merges, MergeReward;
    var k := GameKernel(r);
    if Active(k, p) {
      forall a | a in k.actions(p.1)
        ensures ActionExpanded(k, p, a, small)
      {
        assert ActionExpanded(k, p, a, pairs);
        forall i | 0 <= i < |k.step(p.1, a)|
          ensures (p.0 - 1, k.step(p.1, a)[i].atom.next) in small
        {
          LawOutcome(r, p.1, a, i);
        }
      }
    }
  }

  /** For every query of the square game whose initial boards have at most three tiles, ground and
      quotient have the same one-point frontier and constrained results at every represented pair. */
  lemma QueryFrontiersAgree(
      r: Rules, initial: seq<(real, Game)>, horizon: nat, pairs: Pairs<Game>, nodes: seq<Node<Game>>, w: real -> real, h: nat, x: Game)
    returns (v: Value)
    requires SquareRules(r) && NonnegativeWeight(w) && Lists(nodes, pairs) && (h, x) in pairs
    requires Complete(GameKernel(r), BoardSymmetries(2), initial, horizon, pairs)
    requires Least(GameKernel(r), BoardSymmetries(2), initial, horizon, pairs)
    requires forall i | 0 <= i < |initial| && initial[i].0 > 0.0 :: Tiles(initial[i].1.board) <= 3
    ensures var k, c := GameKernel(r), BoardCanonicalizer(2);
            && (forall u :: OnFrontier(k, nodes, w, h, x, u) <==> u == v)
            && (forall u :: OnQuotientFrontier(k, nodes, c, w, h, c.rep(x), u) <==> u == v)
            && (forall delta: real :: SameConstrained(k, nodes, c, w, h, x, c.rep(x), delta, v))
  {
    hide Complete, Least, SmallPairs, OnFrontier, OnQuotientFrontier, SameConstrained, SymmetricNodes, HonestTerminalFlags,
      ClosedGraph, ExactQuotient, Tiles, SquareRules, SquareGraph;
    SizeIsTwo(r);
    SmallQueriesStaySmall(r, initial, horizon, pairs);
    EnumeratedGraphIsSymmetric(r, initial, horizon, pairs, nodes);
    GameQuotientIsExact(r, nodes);
    ListedGraphIsSquare(r, pairs, nodes);
    v := FrontiersAgree(r, nodes, w, h, x);
  }

  lemma ListedGraphIsSquare(r: Rules, pairs: Pairs<Game>, nodes: seq<Node<Game>>)
    requires SquareRules(r) && SmallPairs(pairs) && Lists(nodes, pairs) && ClosedGraph(GameKernel(r), nodes)
    requires ExactQuotient(GameKernel(r), BoardSymmetries(2), nodes, BoardCanonicalizer(2))
    ensures SquareGraph(r, nodes)
  {
    hide ClosedGraph, ExactQuotient, Tiles, SquareRules;
    forall h: nat, x | InGraph(nodes, h, x)
      ensures Tiles(x.board) <= 3
    {
      var n :| n in nodes && n.remaining == h && n.state == x;
      assert (n.remaining, n.state).1 == x;
    }
  }

  /** The registered 2x2 kernels meet the hypotheses: their initial boards have two tiles, or are
      images of the safe-chain base board. */
  lemma RegisteredQueriesAreSmall(c: nat, d: nat, a: nat, b: nat, g: Element)
    requires c < 4 && d < 4 && c != d && a > 0 && b > 0
    ensures SquareRules(TWO_BY_TWO) && SquareRules(SAFE_CHAIN)
    ensures Tiles([0, 0, 0, 0][c := a][d := b]) <= 3
    ensures Tiles(MoveBoard([1, 1, 2, 0], 2, g)) <= 3
  {
    hide Tiles, MoveBoard;
    RegisteredSpawnsAreStochastic();
    var none := [0, 0, 0, 0];
    NoTiles(none);
    TilesUpdate(none, c, a);
    TilesUpdate(none[c := a], d, b);
    TilesUpdate(none, 0, 1);
    TilesUpdate([1, 0, 0, 0], 1, 1);
    TilesUpdate([1, 1, 0, 0], 2, 2);
    assert none[0 := 1] == [1, 0, 0, 0] && [1, 0, 0, 0][1 := 1] == [1, 1, 0, 0] && [1, 1, 0, 0][2 := 2] == [1, 1, 2, 0];
    TilesMove([1, 1, 2, 0], 2, g);
  }

  lemma NoTiles(b: Board)
    requires b == [0, 0, 0, 0]
    ensures Tiles(b) == 0
  {
    hide EmptyCells;
    EmptyOfSquare(b);
  }

  /** In the game terminal status is invariant, so the last step's termination probability is an
      entry too. */
  lemma GameStopsAlike(r: Rules, x: Game, a: Action)
    ensures StopsAlike(GameKernel(r), BoardCanonicalizer(r.size), x, a)
  {
    hide Law;
  }
}
