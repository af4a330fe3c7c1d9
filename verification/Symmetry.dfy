/** Finite-horizon kernels, group actions on them and the exact automorphism recomputation of the
    D4 baseline verifier.  The main theorem: if the recomputation passes, symmetric states have
    exactly the same achievable (reward, failure) pairs at every horizon. */
module Symmetry {
  import opened Outcomes

  /** A finite exact decision process. */
  datatype Kernel<!S, !A, !F> = Kernel(
    actions: S -> set<A>,
    step: (S, A) -> Outcomes<S, F>,
    terminal: S -> bool)

  /** Group elements acting on states and on actions. */
  datatype GroupAction<!G, !S, !A> = GroupAction(
    elements: seq<G>,
    onState: (G, S) -> S,
    onAction: (G, A) -> A,
    compose: (G, G) -> G,
    inverse: G -> G)

  ghost predicate GroupLaws<G(!new), S(!new), A(!new)>(ga: GroupAction<G, S, A>) {
    && |ga.elements| > 0
    && (forall g {:trigger ga.inverse(g)} | g in ga.elements :: ga.inverse(g) in ga.elements)
    && (forall g, h {:trigger ga.compose(g, h)} | g in ga.elements && h in ga.elements ::
          ga.compose(g, h) in ga.elements)
    && (forall g, x {:trigger ga.onState(ga.inverse(g), ga.onState(g, x))} | g in ga.elements ::
          ga.onState(ga.inverse(g), ga.onState(g, x)) == x)
    && (forall g, x {:trigger ga.onState(g, ga.onState(ga.inverse(g), x))} | g in ga.elements ::
          ga.onState(g, ga.onState(ga.inverse(g), x)) == x)
    && (forall g, a {:trigger ga.onAction(ga.inverse(g), ga.onAction(g, a))} | g in ga.elements ::
          ga.onAction(ga.inverse(g), ga.onAction(g, a)) == a)
    && (forall g, a {:trigger ga.onAction(g, ga.onAction(ga.inverse(g), a))} | g in ga.elements ::
          ga.onAction(g, ga.onAction(ga.inverse(g), a)) == a)
    && (forall g, h, x {:trigger ga.onState(ga.compose(g, h), x)} | g in ga.elements && h in ga.elements ::
          ga.onState(ga.compose(g, h), x) == ga.onState(g, ga.onState(h, x)))
    && (forall g, h, a {:trigger ga.onAction(ga.compose(g, h), a)} | g in ga.elements && h in ga.elements ::
          ga.onAction(ga.compose(g, h), a) == ga.onAction(g, ga.onAction(h, a)))
  }

  ghost predicate PositiveKernel<S(!new), A(!new), F>(k: Kernel<S, A, F>) {
    forall x, a :: Positive(k.step(x, a))
  }

  // ---- State-time graphs ------------------------------------------------------------------

  datatype Node<S> = Node(remaining: nat, state: S, terminal: bool, failure: bool)

  type NodeKey<S> = (nat, S)

  /** The dictionary keyed by remaining horizon and state; a later node replaces an earlier. */
  function Index<S(==)>(nodes: seq<Node<S>>): (index: map<NodeKey<S>, Node<S>>)
    ensures forall k | k in index ::
              index[k] in nodes && index[k].remaining == k.0 && index[k].state == k.1
    ensures forall n | n in nodes :: (n.remaining, n.state) in index
  {
    if |nodes| == 0 then map[]
    else
      var last := nodes[|nodes| - 1];
      assert nodes == nodes[..|nodes| - 1] + [last];
      Index(nodes[..|nodes| - 1])[(last.remaining, last.state) := last]
  }

  ghost predicate InGraph<S>(nodes: seq<Node<S>>, h: nat, x: S) {
    exists n :: n in nodes && n.remaining == h && n.state == x
  }

  /** A node is terminal exactly at horizon zero or in a terminal state. */
  ghost predicate HonestTerminalFlags<S, A, F>(k: Kernel<S, A, F>, nodes: seq<Node<S>>) {
    forall n | n in nodes :: n.terminal <==> n.remaining == 0 || k.terminal(n.state)
  }

  predicate Stopped<S, A, F>(k: Kernel<S, A, F>, a: Atom<S, F>) {
    a.failure || a.terminal || k.terminal(a.next)
  }

  /** Every outcome of an active node leads to a node. */
  ghost predicate ClosedGraph<S(!new), A(!new), F>(k: Kernel<S, A, F>, nodes: seq<Node<S>>) {
    forall h: nat, x, a, i {:trigger InGraph(nodes, h, x), k.step(x, a)[i]} |
      h > 0 && InGraph(nodes, h, x) && !k.terminal(x) && a in k.actions(x) && 0 <= i < |k.step(x, a)| ::
      InGraph(nodes, h - 1, k.step(x, a)[i].atom.next)
  }

  // ---- The automorphism recomputation -----------------------------------------------------

  function Image<G, S, A(==)>(ga: GroupAction<G, S, A>, g: G, actions: set<A>): set<A> {
    set a | a in actions :: ga.onAction(g, a)
  }

  function StateMap<G, S, A>(ga: GroupAction<G, S, A>, g: G): S -> S {
    x => ga.onState(g, x)
  }

  /** The kernel law at `g x` under `g a` is the transported law at `x` under `a`. */
  ghost predicate StepEquivariant<G, S(!new), A, F(!new)>(
      k: Kernel<S, A, F>, ga: GroupAction<G, S, A>, g: G, x: S, a: A)
  {
    SameMass(Mapped(k.step(x, a), StateMap(ga, g)), k.step(ga.onState(g, x), ga.onAction(g, a)))
  }

  /** What the recomputation establishes at one node for one element. */
  ghost predicate NodeEquivariant<G, S(!new), A, F(!new)>(
      k: Kernel<S, A, F>, ga: GroupAction<G, S, A>, index: map<NodeKey<S>, Node<S>>, g: G, n: Node<S>)
  {
    var image := ga.onState(g, n.state);
    && (n.remaining, image) in index
    && Image(ga, g, k.actions(n.state)) == k.actions(image)
    && index[(n.remaining, image)].terminal == n.terminal
    && index[(n.remaining, image)].failure == n.failure
    && (n.remaining > 0 && !n.terminal ==>
          forall a | a in k.actions(n.state) :: StepEquivariant(k, ga, g, n.state, a))
  }

  ghost predicate NodeInvariant<G, S(!new), A, F(!new)>(
      k: Kernel<S, A, F>, ga: GroupAction<G, S, A>, index: map<NodeKey<S>, Node<S>>, n: Node<S>)
  {
    forall g | g in ga.elements :: NodeEquivariant(k, ga, index, g, n)
  }

  ghost predicate Automorphic<G, S(!new), A, F(!new)>(
      k: Kernel<S, A, F>, ga: GroupAction<G, S, A>, nodes: seq<Node<S>>)
  {
    forall n | n in nodes :: NodeInvariant(k, ga, Index(nodes), n)
  }

  /** Legal actions of the node, or none when the node is skipped. */
  function ComparedActions<S, A(==), F>(k: Kernel<S, A, F>, n: Node<S>): set<A> {
    if n.remaining == 0 || n.terminal then {} else k.actions(n.state)
  }

  ghost function ComparedPairs<S, A, F>(k: Kernel<S, A, F>, nodes: seq<Node<S>>): nat {
    if |nodes| == 0 then 0
    else ComparedPairs(k, nodes[..|nodes| - 1]) + |ComparedActions(k, nodes[|nodes| - 1])|
  }

  /** Coalesce both sides of one transported step and compare the dictionaries. */
  method CompareStep<G(==), S(==, !new), A(==, !new), F(==, !new)>(
      k: Kernel<S, A, F>, ga: GroupAction<G, S, A>, g: G, x: S, a: A)
    returns (same: bool)
    requires PositiveKernel(k)
    ensures same <==> StepEquivariant(k, ga, g, x, a)
  {
    var image, imageAction := ga.onState(g, x), ga.onAction(g, a);
    var expected := CoalescedOutcomeMeasure(k.step(x, a), StateMap(ga, g));
    var observed := CoalescedOutcomeMeasure(k.step(image, imageAction), y => y);
    MappedIdentity(k.step(image, imageAction), y => y);
    ghost var left := Mapped(k.step(x, a), StateMap(ga, g));
    assert Positive(k.step(x, a)) && Positive(k.step(image, imageAction));
    MeasuresEqualIffSameMass(expected, left, observed, k.step(image, imageAction));
    return expected == observed;
  }

  /** One node against one element: the set of actions is traversed in arbitrary order. */
  method CheckNode<G(==), S(==, !new), A(==, !new), F(==, !new)>(
      k: Kernel<S, A, F>, ga: GroupAction<G, S, A>, index: map<NodeKey<S>, Node<S>>, g: G, n: Node<S>)
    returns (exact: bool, compared: nat)
    requires PositiveKernel(k)
    ensures exact <==> NodeEquivariant(k, ga, index, g, n)
    ensures exact ==> compared == |ComparedActions(k, n)|
  {
    var image := ga.onState(g, n.state);
    exact, compared := true, 0;
    if (n.remaining, image) !in index {
      return false, 0;
    }
    if Image(ga, g, k.actions(n.state)) != k.actions(image) {
      exact := false;
    }
    if index[(n.remaining, image)].terminal != n.terminal {
      exact := false;
    }
    if index[(n.remaining, image)].failure != n.failure {
      exact := false;
    }
    if n.remaining == 0 || n.terminal {
      return;
    }
    ghost var flags := exact;
    var pending := k.actions(n.state);
    while pending != {}
      invariant pending <= k.actions(n.state)
      invariant compared == |k.actions(n.state)| - |pending|
      invariant exact <==> flags && forall a | a in k.actions(n.state) && a !in pending ::
                  StepEquivariant(k, ga, g, n.state, a)
    {
      var a :| a in pending;
      compared := compared + 1;
      var same := CompareStep(k, ga, g, n.state, a);
      if !same {
        exact := false;
      }
      pending := pending - {a};
    }
  }

  lemma {:induction false} MappedIdentity<S, F>(os: Outcomes<S, F>, t: S -> S)
    requires forall x :: t(x) == x
    ensures Mapped(os, t) == os
  {
    if |os| > 0 {
      MappedIdentity(os[1..], t);
    }
  }

  /** `n * e` by repeated addition. */
  ghost function Multiple(n: nat, e: nat): nat {
    if n == 0 then 0 else Multiple(n - 1, e) + e
  }

  lemma {:induction false} MultipleIsProduct(n: nat, e: nat)
    ensures Multiple(n, e) == n * e
  {
    if n > 0 {
      MultipleIsProduct(n - 1, e);
    }
  }

  method CheckNodeUnderGroup<G(==), S(==, !new), A(==, !new), F(==, !new)>(
      k: Kernel<S, A, F>, ga: GroupAction<G, S, A>, index: map<NodeKey<S>, Node<S>>, n: Node<S>)
    returns (exact: bool, stateChecks: nat, transitionChecks: nat)
    requires PositiveKernel(k)
    ensures exact <==> NodeInvariant(k, ga, index, n)
    ensures stateChecks == |ga.elements|
    ensures exact ==> transitionChecks == Multiple(|ga.elements|, |ComparedActions(k, n)|)
  {
    exact, stateChecks, transitionChecks := true, 0, 0;
    for j := 0 to |ga.elements|
      invariant stateChecks == j
      invariant exact <==> forall i | 0 <= i < j :: NodeEquivariant(k, ga, index, ga.elements[i], n)
      invariant exact ==> transitionChecks == Multiple(j, |ComparedActions(k, n)|)
    {
      stateChecks := stateChecks + 1;
      var passed, compared := CheckNode(k, ga, index, ga.elements[j], n);
      exact := exact && passed;
      transitionChecks := transitionChecks + compared;
    }
  }

  ghost function ExpectedTransitionChecks<S, A, F>(k: Kernel<S, A, F>, nodes: seq<Node<S>>, order: nat): nat {
    if |nodes| == 0 then 0
    else ExpectedTransitionChecks(k, nodes[..|nodes| - 1], order)
         + Multiple(order, |ComparedActions(k, nodes[|nodes| - 1])|)
  }

  lemma {:induction false} ExpectedChecksAreProduct<S, A, F>(k: Kernel<S, A, F>, nodes: seq<Node<S>>, order: nat)
    ensures ExpectedTransitionChecks(k, nodes, order) == ComparedPairs(k, nodes) * order
  {
    if |nodes| > 0 {
      hide ComparedActions, Multiple;
      var before, last := nodes[..|nodes| - 1], |ComparedActions(k, nodes[|nodes| - 1])|;
      ExpectedChecksAreProduct(k, before, order);
      MultipleIsProduct(order, last);
      DistributeCount(ComparedPairs(k, before), last, order);
    }
  }

  lemma DistributeCount(x: nat, y: nat, z: nat)
    ensures (x + y) * z == x * z + z * y
  {
  }

  ghost predicate PrefixInvariant<G, S(!new), A, F(!new)>(
      k: Kernel<S, A, F>, ga: GroupAction<G, S, A>, index: map<NodeKey<S>, Node<S>>, nodes: seq<Node<S>>)
  {
    |nodes| == 0
    || (PrefixInvariant(k, ga, index, nodes[..|nodes| - 1])
        && NodeInvariant(k, ga, index, nodes[|nodes| - 1]))
  }

  lemma {:induction false} PrefixInvariantIffAll<G, S(!new), A, F(!new)>(
      k: Kernel<S, A, F>, ga: GroupAction<G, S, A>, index: map<NodeKey<S>, Node<S>>, nodes: seq<Node<S>>)
    ensures PrefixInvariant(k, ga, index, nodes) <==> forall n | n in nodes :: NodeInvariant(k, ga, index, n)
  {
    if |nodes| > 0 {
      var before, last := nodes[..|nodes| - 1], nodes[|nodes| - 1];
      PrefixInvariantIffAll(k, ga, index, before);
      assert nodes == before + [last];
      assert last in nodes && forall n | n in before :: n in nodes;
      assert forall n | n in nodes :: n in before || n == last;
    }
  }

  /** The nested loops over nodes and elements, with both coverage counters. */
  method CheckAutomorphism<G(==), S(==, !new), A(==, !new), F(==, !new)>(
      k: Kernel<S, A, F>, ga: GroupAction<G, S, A>, nodes: seq<Node<S>>)
    returns (exact: bool, stateChecks: nat, transitionChecks: nat)
    requires PositiveKernel(k)
    ensures exact <==> Automorphic(k, ga, nodes)
    ensures stateChecks == |nodes| * |ga.elements|
    ensures exact ==> transitionChecks == ComparedPairs(k, nodes) * |ga.elements|
  {
    var index := Index(nodes);
    exact, stateChecks, transitionChecks := true, 0, 0;
    for i := 0 to |nodes|
      invariant stateChecks == Multiple(i, |ga.elements|)
      invariant exact <==> PrefixInvariant(k, ga, index, nodes[..i])
      invariant exact ==> transitionChecks == ExpectedTransitionChecks(k, nodes[..i], |ga.elements|)
    {
      var passed, states, transitions := CheckNodeUnderGroup(k, ga, index, nodes[i]);
      exact := exact && passed;
      stateChecks := stateChecks + states;
      transitionChecks := transitionChecks + transitions;
      assert nodes[..i + 1][..i] == nodes[..i];
    }
    assert nodes[..|nodes|] == nodes;
    PrefixInvariantIffAll(k, ga, index, nodes);
    MultipleIsProduct(|nodes|, |ga.elements|);
    ExpectedChecksAreProduct(k, nodes, |ga.elements|);
  }

  // ---- Exact policy evaluation ------------------------------------------------------------

  /** Deterministic Markov policies choose by remaining horizon and state. */
  type Policy<!S, !A> = (nat, S) -> A

  function RewardBranch<S, A, F>(k: Kernel<S, A, F>, w: F -> real, cont: S -> real): Atom<S, F> -> real {
    (a: Atom<S, F>) => w(a.features) + if Stopped(k, a) then 0.0 else cont(a.next)
  }

  function FailureBranch<S, A, F>(k: Kernel<S, A, F>, cont: S -> real): Atom<S, F> -> real {
    (a: Atom<S, F>) => if Stopped(k, a) then (if a.failure then 1.0 else 0.0) else cont(a.next)
  }

  predicate Idle<S, A(==), F>(k: Kernel<S, A, F>, h: nat, x: S) {
    h == 0 || k.terminal(x) || k.actions(x) == {}
  }

  ghost function Reward<S, A, F>(k: Kernel<S, A, F>, w: F -> real, pi: Policy<S, A>, h: nat, x: S): real {
    if Idle(k, h, x) then 0.0
    else Expect(k.step(x, pi(h, x)), RewardBranch(k, w, y => Reward(k, w, pi, h - 1, y)))
  }

  ghost function Failure<S, A, F>(k: Kernel<S, A, F>, pi: Policy<S, A>, h: nat, x: S): real {
    if Idle(k, h, x) then 0.0
    else Expect(k.step(x, pi(h, x)), FailureBranch(k, y => Failure(k, pi, h - 1, y)))
  }

  /** The policy never selects an unavailable action at a node of the graph. */
  ghost predicate Legal<S(!new), A, F>(k: Kernel<S, A, F>, nodes: seq<Node<S>>, pi: Policy<S, A>) {
    forall h: nat, x {:trigger pi(h, x)} | InGraph(nodes, h, x) && !Idle(k, h, x) ::
      pi(h, x) in k.actions(x)
  }

  /** The equivariance facts at one state-time node for one element. */
  ghost predicate Equivariant<G, S(!new), A, F(!new)>(
      k: Kernel<S, A, F>, ga: GroupAction<G, S, A>, nodes: seq<Node<S>>, g: G, h: nat, x: S)
  {
    && InGraph(nodes, h, ga.onState(g, x))
    && Image(ga, g, k.actions(x)) == k.actions(ga.onState(g, x))
    && (h > 0 ==> k.terminal(ga.onState(g, x)) == k.terminal(x))
    && (h > 0 && !k.terminal(x) ==> forall a | a in k.actions(x) :: StepEquivariant(k, ga, g, x, a))
  }

  /** What a verified graph and a passed recomputation give together. */
  ghost predicate SymmetricGraph<G(!new), S(!new), A(!new), F(!new)>(
      k: Kernel<S, A, F>, ga: GroupAction<G, S, A>, nodes: seq<Node<S>>)
  {
    && GroupLaws(ga)
    && ClosedGraph(k, nodes)
    && forall g, h, x {:trigger Equivariant(k, ga, nodes, g, h, x)} |
         g in ga.elements && InGraph(nodes, h, x) :: Equivariant(k, ga, nodes, g, h, x)
  }

  /** A graph with honest terminal flags that passes the recomputation is symmetric. */
  lemma PassedCheckIsSymmetric<G(!new), S(!new), A(!new), F(!new)>(
      k: Kernel<S, A, F>, ga: GroupAction<G, S, A>, nodes: seq<Node<S>>)
    requires GroupLaws(ga) && HonestTerminalFlags(k, nodes) && ClosedGraph(k, nodes)
    requires Automorphic(k, ga, nodes)
    ensures SymmetricGraph(k, ga, nodes)
  {
    forall g, h, x | g in ga.elements && InGraph(nodes, h, x)
      ensures Equivariant(k, ga, nodes, g, h, x)
    {
      PassedCheckAt(k, ga, nodes, g, h, x);
    }
  }

  lemma PassedCheckAt<G(!new), S(!new), A(!new), F(!new)>(
      k: Kernel<S, A, F>, ga: GroupAction<G, S, A>, nodes: seq<Node<S>>, g: G, h: nat, x: S)
    requires HonestTerminalFlags(k, nodes) && Automorphic(k, ga, nodes)
    requires g in ga.elements && InGraph(nodes, h, x)
    ensures Equivariant(k, ga, nodes, g, h, x)
  {
    var n :| n in nodes && n.remaining == h && n.state == x;
    assert NodeInvariant(k, ga, Index(nodes), n);
    assert NodeEquivariant(k, ga, Index(nodes), g, n);
    assert Index(nodes)[(h, ga.onState(g, x))] in nodes;
  }

  /** The policy at `g x` plays the image of what `pi` plays at `x`. */
  function Transport<G, S, A>(ga: GroupAction<G, S, A>, g: G, pi: Policy<S, A>): Policy<S, A> {
    (h: nat, x: S) => ga.onAction(g, pi(h, ga.onState(ga.inverse(g), x)))
  }

  lemma IdleInvariant<G(!new), S(!new), A(!new), F(!new)>(
      k: Kernel<S, A, F>, ga: GroupAction<G, S, A>, nodes: seq<Node<S>>, g: G, h: nat, x: S)
    requires SymmetricGraph(k, ga, nodes) && g in ga.elements && InGraph(nodes, h, x)
    ensures Idle(k, h, ga.onState(g, x)) == Idle(k, h, x)
  {
    assert Equivariant(k, ga, nodes, g, h, x);
    if k.actions(x) == {} {
      assert Image(ga, g, k.actions(x)) == {};
    } else {
      var a :| a in k.actions(x);
      assert ga.onAction(g, a) in Image(ga, g, k.actions(x));
    }
  }

  /** Shifting one equivariant step: the expectation at `g x` is the expectation at `x` of the
      pulled-back function. */
  lemma StepExpect<G, S(!new), A, F(!new)>(
      k: Kernel<S, A, F>, ga: GroupAction<G, S, A>, g: G, x: S, a: A,
      there: Atom<S, F> -> real, here: Atom<S, F> -> real)
    requires StepEquivariant(k, ga, g, x, a)
    requires forall i | 0 <= i < |k.step(x, a)| ::
               here(k.step(x, a)[i].atom) == there(MapAtom(k.step(x, a)[i].atom, StateMap(ga, g)))
    ensures Expect(k.step(ga.onState(g, x), ga.onAction(g, a)), there) == Expect(k.step(x, a), here)
  {
    var t := StateMap(ga, g);
    SameMassSameExpect(Mapped(k.step(x, a), t), k.step(ga.onState(g, x), ga.onAction(g, a)), there);
    ExpectMapped(k.step(x, a), t, there);
    ExpectCongruent(k.step(x, a), here, b => there(MapAtom(b, t)));
  }

  /** One branch at `g x` against the same branch at `x`: at horizon zero terminal flags may
      differ, but then both continuations are worth nothing. */
  lemma BranchInvariant<G(!new), S(!new), A(!new), F(!new)>(
      k: Kernel<S, A, F>, ga: GroupAction<G, S, A>, nodes: seq<Node<S>>, g: G, h: nat,
      w: F -> real, atom: Atom<S, F>, there: S -> real, here: S -> real)
    requires SymmetricGraph(k, ga, nodes) && g in ga.elements && InGraph(nodes, h, atom.next)
    requires there(ga.onState(g, atom.next)) == here(atom.next)
    requires h == 0 ==> here(atom.next) == 0.0
    ensures var image := MapAtom(atom, StateMap(ga, g));
            && RewardBranch(k, w, there)(image) == RewardBranch(k, w, here)(atom)
            && FailureBranch(k, there)(image) == FailureBranch(k, here)(atom)
  {
    assert Equivariant(k, ga, nodes, g, h, atom.next);
  }

  /** One step at `g x` under `g a` is worth one step at `x` under `a`, for any continuations
      that agree across `g` on the successors. */
  lemma StepValueInvariant<G(!new), S(!new), A(!new), F(!new)>(
      k: Kernel<S, A, F>, ga: GroupAction<G, S, A>, nodes: seq<Node<S>>, g: G, h: nat, x: S, a: A,
      w: F -> real, there: S -> real, here: S -> real)
    requires SymmetricGraph(k, ga, nodes) && g in ga.elements
    requires InGraph(nodes, h, x) && !Idle(k, h, x) && a in k.actions(x)
    requires forall y | InGraph(nodes, h - 1, y) :: there(ga.onState(g, y)) == here(y)
    requires h == 1 ==> forall y :: here(y) == 0.0
    ensures Expect(k.step(ga.onState(g, x), ga.onAction(g, a)), RewardBranch(k, w, there))
         == Expect(k.step(x, a), RewardBranch(k, w, here))
    ensures Expect(k.step(ga.onState(g, x), ga.onAction(g, a)), FailureBranch(k, there))
         == Expect(k.step(x, a), FailureBranch(k, here))
  {
    assert Equivariant(k, ga, nodes, g, h, x);
    forall i | 0 <= i < |k.step(x, a)|
      ensures var atom := k.step(x, a)[i].atom;
              var image := MapAtom(atom, StateMap(ga, g));
              && RewardBranch(k, w, there)(image) == RewardBranch(k, w, here)(atom)
              && FailureBranch(k, there)(image) == FailureBranch(k, here)(atom)
    {
      BranchInvariant(k, ga, nodes, g, h - 1, w, k.step(x, a)[i].atom, there, here);
    }
    StepExpect(k, ga, g, x, a, RewardBranch(k, w, there), RewardBranch(k, w, here));
    StepExpect(k, ga, g, x, a, FailureBranch(k, there), FailureBranch(k, here));
  }

  ghost predicate SameValue<S, A, F>(
      k: Kernel<S, A, F>, w: F -> real, pi: Policy<S, A>, x: S, rho: Policy<S, A>, y: S, h: nat)
  {
    Reward(k, w, pi, h, x) == Reward(k, w, rho, h, y) && Failure(k, pi, h, x) == Failure(k, rho, h, y)
  }

  ghost predicate SameValuesAt<G, S(!new), A, F>(
      k: Kernel<S, A, F>, ga: GroupAction<G, S, A>, nodes: seq<Node<S>>,
      w: F -> real, pi: Policy<S, A>, g: G, h: nat)
  {
    forall y | InGraph(nodes, h, y) :: SameValue(k, w, Transport(ga, g, pi), ga.onState(g, y), pi, y, h)
  }

  lemma TransportStep<G(!new), S(!new), A(!new), F(!new)>(
      k: Kernel<S, A, F>, ga: GroupAction<G, S, A>, nodes: seq<Node<S>>,
      w: F -> real, pi: Policy<S, A>, g: G, h: nat, x: S)
    requires SymmetricGraph(k, ga, nodes) && Legal(k, nodes, pi)
    requires g in ga.elements && h > 0 && InGraph(nodes, h, x)
    requires SameValuesAt(k, ga, nodes, w, pi, g, h - 1)
    ensures SameValue(k, w, Transport(ga, g, pi), ga.onState(g, x), pi, x, h)
  {
    IdleInvariant(k, ga, nodes, g, h, x);
    if !Idle(k, h, x) {
      var rho := Transport(ga, g, pi);
      StepValueInvariant(k, ga, nodes, g, h, x, pi(h, x), w,
                         y => Reward(k, w, rho, h - 1, y), y => Reward(k, w, pi, h - 1, y));
      StepValueInvariant(k, ga, nodes, g, h, x, pi(h, x), w,
                         y => Failure(k, rho, h - 1, y), y => Failure(k, pi, h - 1, y));
    }
  }

  /** Transporting a policy through `g` preserves its exact reward and failure probability at
      every node of the graph. */
  lemma TransportPreservesValue<G(!new), S(!new), A(!new), F(!new)>(
      k: Kernel<S, A, F>, ga: GroupAction<G, S, A>, nodes: seq<Node<S>>,
      w: F -> real, pi: Policy<S, A>, g: G, h: nat)
    requires SymmetricGraph(k, ga, nodes) && Legal(k, nodes, pi) && g in ga.elements
    ensures SameValuesAt(k, ga, nodes, w, pi, g, h)
    decreases h
  {
    var j: nat := 0;
    while j < h
      invariant j <= h
      invariant SameValuesAt(k, ga, nodes, w, pi, g, j)
    {
      TransportLevel(k, ga, nodes, w, pi, g, j + 1);
      j := j + 1;
    }
  }

  lemma TransportLevel<G(!new), S(!new), A(!new), F(!new)>(
      k: Kernel<S, A, F>, ga: GroupAction<G, S, A>, nodes: seq<Node<S>>,
      w: F -> real, pi: Policy<S, A>, g: G, h: nat)
    requires SymmetricGraph(k, ga, nodes) && Legal(k, nodes, pi) && g in ga.elements && h > 0
    requires SameValuesAt(k, ga, nodes, w, pi, g, h - 1)
    ensures SameValuesAt(k, ga, nodes, w, pi, g, h)
  {
    forall x | InGraph(nodes, h, x)
      ensures SameValue(k, w, Transport(ga, g, pi), ga.onState(g, x), pi, x, h)
    {
      TransportStep(k, ga, nodes, w, pi, g, h, x);
    }
  }

  lemma TransportLegal<G(!new), S(!new), A(!new), F(!new)>(
      k: Kernel<S, A, F>, ga: GroupAction<G, S, A>, nodes: seq<Node<S>>, pi: Policy<S, A>, g: G)
    requires SymmetricGraph(k, ga, nodes) && Legal(k, nodes, pi) && g in ga.elements
    ensures Legal(k, nodes, Transport(ga, g, pi))
  {
    forall h: nat, x | InGraph(nodes, h, x) && !Idle(k, h, x)
      ensures Transport(ga, g, pi)(h, x) in k.actions(x)
    {
      TransportLegalAt(k, ga, nodes, pi, g, h, x);
    }
  }

  lemma TransportLegalAt<G(!new), S(!new), A(!new), F(!new)>(
      k: Kernel<S, A, F>, ga: GroupAction<G, S, A>, nodes: seq<Node<S>>, pi: Policy<S, A>, g: G,
      h: nat, x: S)
    requires SymmetricGraph(k, ga, nodes) && Legal(k, nodes, pi) && g in ga.elements
    requires InGraph(nodes, h, x) && !Idle(k, h, x)
    ensures Transport(ga, g, pi)(h, x) in k.actions(x)
  {
    var y := ga.onState(ga.inverse(g), x);
    assert Equivariant(k, ga, nodes, ga.inverse(g), h, x);
    IdleInvariant(k, ga, nodes, ga.inverse(g), h, x);
    assert Equivariant(k, ga, nodes, g, h, y);
    assert ga.onAction(g, pi(h, y)) in Image(ga, g, k.actions(y));
  }

  // ---- Achievable values, frontiers and constrained optima --------------------------------

  datatype Value = Value(reward: real, failure: real)

  ghost predicate Achieves<S(!new), A, F>(
      k: Kernel<S, A, F>, nodes: seq<Node<S>>, w: F -> real, pi: Policy<S, A>, h: nat, x: S, v: Value)
  {
    Legal(k, nodes, pi) && Reward(k, w, pi, h, x) == v.reward && Failure(k, pi, h, x) == v.failure
  }

  ghost predicate Achievable<S(!new), A(!new), F>(
      k: Kernel<S, A, F>, nodes: seq<Node<S>>, w: F -> real, h: nat, x: S, v: Value)
  {
    exists pi: Policy<S, A> :: Achieves(k, nodes, w, pi, h, x, v)
  }

  predicate Dominates(u: Value, v: Value) {
    u != v && u.reward >= v.reward && u.failure <= v.failure
  }

  ghost predicate OnFrontier<S(!new), A(!new), F>(
      k: Kernel<S, A, F>, nodes: seq<Node<S>>, w: F -> real, h: nat, x: S, v: Value)
  {
    Achievable(k, nodes, w, h, x, v) && forall u | Achievable(k, nodes, w, h, x, u) :: !Dominates(u, v)
  }

  /** The best reward among policies whose failure probability respects `delta`. */
  ghost predicate ConstrainedOptimum<S(!new), A(!new), F>(
      k: Kernel<S, A, F>, nodes: seq<Node<S>>, w: F -> real, h: nat, x: S, delta: real, v: Value)
  {
    && Achievable(k, nodes, w, h, x, v) && v.failure <= delta
    && forall u | Achievable(k, nodes, w, h, x, u) && u.failure <= delta :: u.reward <= v.reward
  }

  lemma AchievableAtImage<G(!new), S(!new), A(!new), F(!new)>(
      k: Kernel<S, A, F>, ga: GroupAction<G, S, A>, nodes: seq<Node<S>>, w: F -> real, g: G, h: nat, x: S,
      v: Value)
    requires SymmetricGraph(k, ga, nodes) && g in ga.elements && InGraph(nodes, h, x)
    requires Achievable(k, nodes, w, h, x, v)
    ensures Achievable(k, nodes, w, h, ga.onState(g, x), v)
  {
    var pi: Policy<S, A> :| Achieves(k, nodes, w, pi, h, x, v);
    TransportPreservesValue(k, ga, nodes, w, pi, g, h);
    TransportLegal(k, ga, nodes, pi, g);
    assert Achieves(k, nodes, w, Transport(ga, g, pi), h, ga.onState(g, x), v);
  }

  /** Exact value and risk preservation: a state and its image have the same achievable pairs,
      the same Pareto frontier and the same constrained optima, at every horizon. */
  lemma SymmetricStatesHaveEqualValueSets<G(!new), S(!new), A(!new), F(!new)>(
      k: Kernel<S, A, F>, ga: GroupAction<G, S, A>, nodes: seq<Node<S>>, w: F -> real, g: G, h: nat, x: S)
    requires SymmetricGraph(k, ga, nodes) && g in ga.elements && InGraph(nodes, h, x)
    ensures forall v ::
              Achievable(k, nodes, w, h, ga.onState(g, x), v) <==> Achievable(k, nodes, w, h, x, v)
    ensures forall v ::
              OnFrontier(k, nodes, w, h, ga.onState(g, x), v) <==> OnFrontier(k, nodes, w, h, x, v)
    ensures forall delta, v ::
              ConstrainedOptimum(k, nodes, w, h, ga.onState(g, x), delta, v)
              <==> ConstrainedOptimum(k, nodes, w, h, x, delta, v)
  {
    var y := ga.onState(g, x);
    assert Equivariant(k, ga, nodes, g, h, x);
    forall v
      ensures Achievable(k, nodes, w, h, y, v) <==> Achievable(k, nodes, w, h, x, v)
    {
      if Achievable(k, nodes, w, h, x, v) {
        AchievableAtImage(k, ga, nodes, w, g, h, x, v);
      }
      if Achievable(k, nodes, w, h, y, v) {
        AchievableAtImage(k, ga, nodes, w, ga.inverse(g), h, y, v);
      }
    }
  }
}
