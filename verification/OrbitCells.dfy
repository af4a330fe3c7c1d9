/** The symmetry check of an abstract domain: covered states, partition, semantic labels,
    concretizer mixtures and kernel against a group.  A passed check makes every cell a union of
    complete orbits and gives lifted policies one value per orbit. */
module OrbitCells {
  import opened FiniteSums
  import opened Outcomes
  import opened Symmetry
  import QuotientValues

  /** A mixture gives each selected action its probability. */
  type Mixture<A> = map<A, real>

  datatype Domain<!S, !A, !F, !C, !L> = Domain(
    kernel: Kernel<S, A, F>,
    covered: seq<S>,
    cell: S -> C,
    labels: S -> seq<L>,
    concretize: (S, L) -> Mixture<A>)

  /** The group moves actions without merging them. */
  ghost predicate Injective<G, S, A(!new)>(ga: GroupAction<G, S, A>, g: G) {
    forall a, b {:trigger ga.onAction(g, a), ga.onAction(g, b)} :: ga.onAction(g, a) == ga.onAction(g, b) ==> a == b
  }

  lemma GroupIsInjective<G(!new), S(!new), A(!new)>(ga: GroupAction<G, S, A>, g: G)
    requires GroupLaws(ga) && g in ga.elements
    ensures Injective(ga, g)
  {
    forall a, b | ga.onAction(g, a) == ga.onAction(g, b)
      ensures a == b
    {
      assert ga.onAction(ga.inverse(g), ga.onAction(g, a)) == a;
      assert ga.onAction(ga.inverse(g), ga.onAction(g, b)) == b;
    }
  }

  function Moved<G, S, A(==, !new)>(ga: GroupAction<G, S, A>, g: G, mix: Mixture<A>): Mixture<A>
    requires Injective(ga, g)
  {
    map a | a in mix :: ga.onAction(g, a) := mix[a]
  }

  // ---- The check --------------------------------------------------------------------------

  datatype Failure =
    | NoFailure
    | ClosureNotInvariant
    | PartitionNotInvariant
    | LabelsNotEquivariant
    | ConcretizerNotEquivariant
    | KernelNotEquivariant

  ghost predicate MixturesMatch<G(!new), S(!new), A(!new), F, C, L>(
      d: Domain<S, A, F, C, L>, ga: GroupAction<G, S, A>, g: G, x: S)
    requires Injective(ga, g)
  {
    forall i | 0 <= i < |d.labels(x)| ::
      Moved(ga, g, d.concretize(x, d.labels(x)[i])) == d.concretize(ga.onState(g, x), d.labels(x)[i])
  }

  ghost predicate LawsMatch<G(!new), S(!new), A(!new), F(!new), C, L>(
      d: Domain<S, A, F, C, L>, ga: GroupAction<G, S, A>, g: G, x: S)
  {
    forall a | a in d.kernel.actions(x) :: StepEquivariant(d.kernel, ga, g, x, a)
  }

  /** What is required of one covered state under one element, in the order of the checks. */
  ghost function FirstFailure<G(!new), S(!new), A(!new), F(!new), C, L>(
      d: Domain<S, A, F, C, L>, ga: GroupAction<G, S, A>, g: G, x: S): Failure
    requires Injective(ga, g)
  {
    var image := ga.onState(g, x);
    if image !in d.covered then ClosureNotInvariant
    else if d.cell(image) != d.cell(x) then PartitionNotInvariant
    else if d.kernel.terminal(x) then NoFailure
    else if d.labels(image) != d.labels(x) then LabelsNotEquivariant
    else if !MixturesMatch(d, ga, g, x) then ConcretizerNotEquivariant
    else if !LawsMatch(d, ga, g, x) then KernelNotEquivariant
    else NoFailure
  }

  ghost predicate SymmetricAt<G(!new), S(!new), A(!new), F(!new), C, L>(
      d: Domain<S, A, F, C, L>, ga: GroupAction<G, S, A>, g: G, x: S)
  {
    Injective(ga, g) && FirstFailure(d, ga, g, x) == NoFailure
  }

  ghost predicate Passed<G(!new), S(!new), A(!new), F(!new), C, L>(d: Domain<S, A, F, C, L>, ga: GroupAction<G, S, A>) {
    forall x, g | x in d.covered && g in ga.elements :: SymmetricAt(d, ga, g, x)
  }

  method CheckState<G(==, !new), S(==, !new), A(==, !new), F(==, !new), C(==), L(==)>(
      d: Domain<S, A, F, C, L>, ga: GroupAction<G, S, A>, g: G, x: S)
    returns (failure: Failure)
    requires PositiveKernel(d.kernel) && Injective(ga, g)
    ensures failure == FirstFailure(d, ga, g, x)
  {
    hide StepEquivariant, Injective;
    var image := ga.onState(g, x);
    if image !in d.covered {
      return ClosureNotInvariant;
    }
    if d.cell(image) != d.cell(x) {
      return PartitionNotInvariant;
    }
    if d.kernel.terminal(x) {
      return NoFailure;
    }
    if d.labels(image) != d.labels(x) {
      return LabelsNotEquivariant;
    }
    for i := 0 to |d.labels(x)|
      invariant forall j | 0 <= j < i ::
                  Moved(ga, g, d.concretize(x, d.labels(x)[j])) == d.concretize(image, d.labels(x)[j])
    {
      var offered := d.labels(x)[i];
      if Moved(ga, g, d.concretize(x, offered)) != d.concretize(image, offered) {
        return ConcretizerNotEquivariant;
      }
    }
    var pending := d.kernel.actions(x);
    while pending != {}
      invariant pending <= d.kernel.actions(x)
      invariant forall a | a in d.kernel.actions(x) - pending :: StepEquivariant(d.kernel, ga, g, x, a)
    {
      var a :| a in pending;
      var same := CompareStep(d.kernel, ga, g, x, a);
      if !same {
        return KernelNotEquivariant;
      }
      pending := pending - {a};
    }
    return NoFailure;
  }

  /** The pair `(i, j)` of loop indices comes before `(m, n)`. */
  predicate Earlier(i: nat, j: nat, m: nat, n: nat) {
    i < m || (i == m && j < n)
  }

  /** The failure is that of the first failing pair in loop order. */
  ghost predicate FirstAt<G(!new), S(!new), A(!new), F(!new), C, L>(
      d: Domain<S, A, F, C, L>, ga: GroupAction<G, S, A>, m: nat, n: nat, failure: Failure)
    requires forall g | g in ga.elements :: Injective(ga, g)
  {
    && m < |d.covered| && n < |ga.elements| && FirstFailure(d, ga, ga.elements[n], d.covered[m]) == failure
    && forall i: nat, j: nat | i < |d.covered| && j < |ga.elements| && Earlier(i, j, m, n) ::
         FirstFailure(d, ga, ga.elements[j], d.covered[i]) == NoFailure
  }

  lemma AllInjective<G(!new), S(!new), A(!new)>(ga: GroupAction<G, S, A>)
    requires GroupLaws(ga)
    ensures forall g | g in ga.elements :: Injective(ga, g)
  {
    hide GroupLaws, Injective;
    forall g | g in ga.elements
      ensures Injective(ga, g)
    {
      GroupIsInjective(ga, g);
    }
  }

  /** All covered states under all elements, up to the first failure. */
  method AutomorphismFailures<G(==, !new), S(==, !new), A(==, !new), F(==, !new), C(==), L(==)>(
      d: Domain<S, A, F, C, L>, ga: GroupAction<G, S, A>)
    returns (failure: Failure)
    requires PositiveKernel(d.kernel) && GroupLaws(ga)
    ensures failure == NoFailure <==> Passed(d, ga)
    ensures failure != NoFailure ==>
              (forall g | g in ga.elements :: Injective(ga, g)) && exists m: nat, n: nat :: FirstAt(d, ga, m, n, failure)
  {
    hide FirstFailure, GroupLaws, Injective;
    AllInjective(ga);
    for i := 0 to |d.covered|
      invariant forall k: nat, j: nat | k < i && j < |ga.elements| ::
                  FirstFailure(d, ga, ga.elements[j], d.covered[k]) == NoFailure
    {
      var x := d.covered[i];
      for j := 0 to |ga.elements|
        invariant forall k: nat | k < j :: FirstFailure(d, ga, ga.elements[k], x) == NoFailure
      {
        failure := CheckState(d, ga, ga.elements[j], x);
        if failure != NoFailure {
          assert !SymmetricAt(d, ga, ga.elements[j], x);
          assert FirstAt(d, ga, i, j, failure);
          return;
        }
      }
    }
    return NoFailure;
  }

  // ---- Terminal invariance ----------------------------------------------------------------

  /** The adapter offers no label exactly in terminal states. */
  ghost predicate LabelsMarkActivity<S(!new), A, F, C, L>(d: Domain<S, A, F, C, L>) {
    forall x {:trigger d.labels(x)} | x in d.covered :: d.kernel.terminal(x) <==> d.labels(x) == []
  }

  /** The check never compares terminal flags; inverses and label equality give their equality. */
  lemma TerminalInvariant<G(!new), S(!new), A(!new), F(!new), C, L>(
      d: Domain<S, A, F, C, L>, ga: GroupAction<G, S, A>, g: G, x: S)
    requires GroupLaws(ga) && Passed(d, ga) && LabelsMarkActivity(d) && x in d.covered && g in ga.elements
    ensures ga.onState(g, x) in d.covered && d.cell(ga.onState(g, x)) == d.cell(x)
    ensures d.kernel.terminal(ga.onState(g, x)) == d.kernel.terminal(x)
  {
    hide Injective, MixturesMatch, LawsMatch;
    var image := ga.onState(g, x);
    assert SymmetricAt(d, ga, g, x);
    assert ga.inverse(g) in ga.elements && ga.onState(ga.inverse(g), image) == x;
    assert SymmetricAt(d, ga, ga.inverse(g), image);
    assert !d.kernel.terminal(x) || !d.kernel.terminal(image) ==> d.labels(image) == d.labels(x);
  }

  // ---- Cells and orbits -------------------------------------------------------------------

  ghost function OrbitKeys<G, S>(c: QuotientValues.Canonicalizer<G, S>, xs: set<S>): set<S> {
    set x | x in xs :: c.rep(x)
  }

  ghost function CellsOf<S, A, F, C, L>(d: Domain<S, A, F, C, L>, xs: set<S>): set<C> {
    set x | x in xs :: d.cell(x)
  }

  /** States of one orbit share their cell, so each cell is a union of complete orbits. */
  lemma CellsAreUnionsOfOrbits<G(!new), S(!new), A(!new), F(!new), C, L>(
      d: Domain<S, A, F, C, L>, ga: GroupAction<G, S, A>, c: QuotientValues.Canonicalizer<G, S>, x: S, y: S)
    requires Passed(d, ga) && QuotientValues.CanonicalizerLaws(ga, c) && x in d.covered && y in d.covered
    requires c.rep(x) == c.rep(y)
    ensures d.cell(x) == d.cell(y)
  {
    hide Injective, MixturesMatch, LawsMatch;
    assert SymmetricAt(d, ga, c.via(x), x) && SymmetricAt(d, ga, c.via(y), y);
  }

  /** A map that factors through another has no more values. */
  lemma {:induction false} FewerValues<S, K, C>(xs: set<S>, key: S -> K, value: S -> C)
    requires forall x, y | x in xs && y in xs && key(x) == key(y) :: value(x) == value(y)
    ensures |set x | x in xs :: value(x)| <= |set x | x in xs :: key(x)|
    decreases |xs|
  {
    if xs != {} {
      var x :| x in xs;
      var together := set y | y in xs && key(y) == key(x);
      var rest := xs - together;
      FewerValues(rest, key, value);
      var keys, values := set y | y in rest :: key(y), set y | y in rest :: value(y);
      var allKeys, allValues := set y | y in xs :: key(y), set y | y in xs :: value(y);
      assert allKeys == keys + {key(x)} && key(x) !in keys;
      assert allValues == values + {value(x)};
    }
  }

  /** Cells are at most as many as orbits, and orbits at most as many as states. */
  lemma CompressionOrder<G(!new), S(!new), A(!new), F(!new), C, L>(
      d: Domain<S, A, F, C, L>, ga: GroupAction<G, S, A>, c: QuotientValues.Canonicalizer<G, S>, xs: set<S>)
    requires Passed(d, ga) && QuotientValues.CanonicalizerLaws(ga, c) && forall x | x in xs :: x in d.covered
    ensures |CellsOf(d, xs)| <= |OrbitKeys(c, xs)| <= |xs|
  {
    hide Passed, QuotientValues.CanonicalizerLaws;
    forall x, y | x in xs && y in xs && c.rep(x) == c.rep(y)
      ensures d.cell(x) == d.cell(y)
    {
      CellsAreUnionsOfOrbits(d, ga, c, x, y);
    }
    FewerValues(xs, c.rep, d.cell);
    var same := (x: S) => x;
    FewerValues(xs, same, c.rep);
    assert forall x :: same(x) == x;
    assert (set x | x in xs :: same(x)) == xs;
  }

  // ---- Lifted policies --------------------------------------------------------------------

  ghost function Weight<A>(mix: Mixture<A>, a: A): real {
    if a in mix then mix[a] else 0.0
  }

  ghost function StepTerm<S, A, F, C, L>(d: Domain<S, A, F, C, L>, mix: Mixture<A>, x: S, f: Atom<S, F> -> real): A -> real {
    a => Weight(mix, a) * Expect(d.kernel.step(x, a), f)
  }

  /** One step under a mixture. */
  ghost function MixedStep<S, A, F, C, L>(d: Domain<S, A, F, C, L>, mix: Mixture<A>, x: S, f: Atom<S, F> -> real): real {
    SumOver(mix.Keys, StepTerm(d, mix, x, f))
  }

  /** A semantic policy selects by remaining horizon and cell. */
  type Semantic<!C, !L> = (nat, C) -> L

  ghost function LiftedReward<S, A, F, C, L>(d: Domain<S, A, F, C, L>, w: F -> real, sigma: Semantic<C, L>, h: nat, x: S): real {
    if h == 0 || d.kernel.terminal(x) then 0.0
    else MixedStep(d, d.concretize(x, sigma(h, d.cell(x))), x,
                   RewardBranch(d.kernel, w, y => LiftedReward(d, w, sigma, h - 1, y)))
  }

  ghost function LiftedFailure<S, A, F, C, L>(d: Domain<S, A, F, C, L>, sigma: Semantic<C, L>, h: nat, x: S): real {
    if h == 0 || d.kernel.terminal(x) then 0.0
    else MixedStep(d, d.concretize(x, sigma(h, d.cell(x))), x,
                   FailureBranch(d.kernel, y => LiftedFailure(d, sigma, h - 1, y)))
  }

  /** Mixtures without a common action add up, and a single action counts with its probability. */
  lemma MixedStepAdds<S, A, F, C, L>(
      d: Domain<S, A, F, C, L>, mix: Mixture<A>, other: Mixture<A>, a: A, p: real, x: S, f: Atom<S, F> -> real)
    requires mix.Keys !! other.Keys
    ensures MixedStep(d, mix + other, x, f) == MixedStep(d, mix, x, f) + MixedStep(d, other, x, f)
    ensures MixedStep(d, map[a := p], x, f) == p * Expect(d.kernel.step(x, a), f)
  {
    hide SumOver;
    var all := mix + other;
    assert all.Keys == mix.Keys + other.Keys;
    SumUnion(mix.Keys, other.Keys, StepTerm(d, all, x, f));
    forall b | b in all.Keys
      ensures StepTerm(d, all, x, f)(b) == if b in mix.Keys then StepTerm(d, mix, x, f)(b) else StepTerm(d, other, x, f)(b)
    {
      assert Weight(all, b) == if b in mix.Keys then Weight(mix, b) else Weight(other, b);
    }
    SumCongruent(mix.Keys, StepTerm(d, all, x, f), StepTerm(d, mix, x, f));
    SumCongruent(other.Keys, StepTerm(d, all, x, f), StepTerm(d, other, x, f));
    var one: Mixture<A> := map[a := p];
    SumRemove(one.Keys, StepTerm(d, one, x, f), a);
    assert one.Keys - {a} == {};
    SumEmpty(StepTerm(d, one, x, f));
  }

  /** The domain concretizes every label to one action. */
  ghost predicate Concretizes<S(!new), A, F, C, L(!new)>(d: Domain<S, A, F, C, L>, pick: (S, L) -> A) {
    forall x, l {:trigger d.concretize(x, l)} :: d.concretize(x, l) == map[pick(x, l) := 1.0]
  }

  ghost function Picked<S, A, F, C, L>(d: Domain<S, A, F, C, L>, pick: (S, L) -> A, sigma: Semantic<C, L>): Policy<S, A> {
    (h: nat, x: S) => pick(x, sigma(h, d.cell(x)))
  }

  ghost predicate LiftsPolicy<S(!new), A, F, C, L>(
      d: Domain<S, A, F, C, L>, w: F -> real, pick: (S, L) -> A, sigma: Semantic<C, L>, h: nat)
  {
    forall x :: LiftedReward(d, w, sigma, h, x) == Reward(d.kernel, w, Picked(d, pick, sigma), h, x)
             && LiftedFailure(d, sigma, h, x) == Symmetry.Failure(d.kernel, Picked(d, pick, sigma), h, x)
  }

  lemma OneActionStep<S(!new), A, F, C, L(!new)>(
      d: Domain<S, A, F, C, L>, pick: (S, L) -> A, sigma: Semantic<C, L>, h: nat, x: S, f: Atom<S, F> -> real)
    requires Concretizes(d, pick)
    ensures MixedStep(d, d.concretize(x, sigma(h, d.cell(x))), x, f) == Expect(d.kernel.step(x, Picked(d, pick, sigma)(h, x)), f)
  {
    hide MixedStep;
    MixedStepAdds(d, map[], map[], pick(x, sigma(h, d.cell(x))), 1.0, x, f);
  }

  lemma LiftsNext<S(!new), A, F, C, L(!new)>(
      d: Domain<S, A, F, C, L>, w: F -> real, pick: (S, L) -> A, sigma: Semantic<C, L>, h: nat, x: S)
    requires Concretizes(d, pick) && LiftsPolicy(d, w, pick, sigma, h)
    requires !d.kernel.terminal(x) ==> d.kernel.actions(x) != {}
    ensures LiftedReward(d, w, sigma, h + 1, x) == Reward(d.kernel, w, Picked(d, pick, sigma), h + 1, x)
    ensures LiftedFailure(d, sigma, h + 1, x) == Symmetry.Failure(d.kernel, Picked(d, pick, sigma), h + 1, x)
  {
    if !d.kernel.terminal(x) {
      hide MixedStep, Concretizes, LiftsPolicy, Expect;
      var pi := Picked(d, pick, sigma);
      var os := d.kernel.step(x, pi(h + 1, x));
      var own, plain: S -> real := y => LiftedReward(d, w, sigma, h, y), y => Reward(d.kernel, w, pi, h, y);
      var risk, failure: S -> real := y => LiftedFailure(d, sigma, h, y), y => Symmetry.Failure(d.kernel, pi, h, y);
      OneActionStep(d, pick, sigma, h + 1, x, RewardBranch(d.kernel, w, own));
      OneActionStep(d, pick, sigma, h + 1, x, FailureBranch(d.kernel, risk));
      forall i | 0 <= i < |os|
        ensures own(os[i].atom.next) == plain(os[i].atom.next) && risk(os[i].atom.next) == failure(os[i].atom.next)
      {
        LiftsAt(d, w, pick, sigma, h, os[i].atom.next);
      }
      ExpectCongruent(os, RewardBranch(d.kernel, w, own), RewardBranch(d.kernel, w, plain));
      ExpectCongruent(os, FailureBranch(d.kernel, risk), FailureBranch(d.kernel, failure));
    }
  }

  lemma LiftsAt<S(!new), A, F, C, L>(
      d: Domain<S, A, F, C, L>, w: F -> real, pick: (S, L) -> A, sigma: Semantic<C, L>, h: nat, x: S)
    requires LiftsPolicy(d, w, pick, sigma, h)
    ensures LiftedReward(d, w, sigma, h, x) == Reward(d.kernel, w, Picked(d, pick, sigma), h, x)
    ensures LiftedFailure(d, sigma, h, x) == Symmetry.Failure(d.kernel, Picked(d, pick, sigma), h, x)
  {
  }

  /** Where every label stands for one action, lifted values are the values of the ground policy
      that plays these actions. */
  lemma SingleActionsLift<S(!new), A, F, C, L(!new)>(
      d: Domain<S, A, F, C, L>, w: F -> real, pick: (S, L) -> A, sigma: Semantic<C, L>, h: nat)
    requires Concretizes(d, pick) && forall x {:trigger d.kernel.terminal(x)} | !d.kernel.terminal(x) :: d.kernel.actions(x) != {}
    ensures LiftsPolicy(d, w, pick, sigma, h)
  {
    var n: nat := 0;
    assert LiftsPolicy(d, w, pick, sigma, 0);
    hide Concretizes, LiftedReward, LiftedFailure, Reward, Symmetry.Failure;
    while n < h
      invariant n <= h && LiftsPolicy(d, w, pick, sigma, n)
    {
      var next: nat := n + 1;
      forall x
        ensures LiftedReward(d, w, sigma, next, x) == Reward(d.kernel, w, Picked(d, pick, sigma), next, x)
        ensures LiftedFailure(d, sigma, next, x) == Symmetry.Failure(d.kernel, Picked(d, pick, sigma), next, x)
      {
        LiftsNext(d, w, pick, sigma, n, x);
      }
      n := next;
    }
  }

  /** Concretizations are legal, and continuing outcomes of covered states are covered. */
  ghost predicate Closed<S(!new), A(!new), F, C, L(!new)>(d: Domain<S, A, F, C, L>) {
    && (forall x, l {:trigger d.concretize(x, l)} | x in d.covered && !d.kernel.terminal(x) && l in d.labels(x) ::
          d.concretize(x, l).Keys <= d.kernel.actions(x))
    && (forall x, a, i {:trigger d.kernel.step(x, a)[i]} |
          x in d.covered && !d.kernel.terminal(x) && a in d.kernel.actions(x) && 0 <= i < |d.kernel.step(x, a)| ::
          Continues(d.kernel.step(x, a)[i].atom) ==> d.kernel.step(x, a)[i].atom.next in d.covered)
  }

  predicate Continues<S, F>(a: Atom<S, F>) {
    !a.failure && !a.terminal
  }

  /** The policy selects offered labels. */
  ghost predicate Available<S(!new), A, F, C, L(!new)>(d: Domain<S, A, F, C, L>, sigma: Semantic<C, L>) {
    forall h: nat, x {:trigger sigma(h, d.cell(x))} | h > 0 && x in d.covered && !d.kernel.terminal(x) ::
      sigma(h, d.cell(x)) in d.labels(x)
  }

  lemma {:induction false} SumReindex<A(!new), B>(xs: set<A>, t: A -> B, f: A -> real, f': B -> real)
    requires forall a, b | a in xs && b in xs && t(a) == t(b) :: a == b
    requires forall a | a in xs :: f'(t(a)) == f(a)
    ensures SumOver(set a | a in xs :: t(a), f') == SumOver(xs, f)
    decreases |xs|
  {
    hide SumOver;
    var ys := set a | a in xs :: t(a);
    if xs == {} {
      SumEmpty(f);
      SumEmpty(f');
      assert ys == {};
    } else {
      var a :| a in xs;
      SumRemove(xs, f, a);
      SumRemove(ys, f', t(a));
      SumReindex(xs - {a}, t, f, f');
      assert ys - {t(a)} == set b | b in xs - {a} :: t(b);
    }
  }

  ghost predicate Pulled<G, S, A, F, C, L>(
      d: Domain<S, A, F, C, L>, ga: GroupAction<G, S, A>, g: G, x: S, a: A, there: Atom<S, F> -> real, here: Atom<S, F> -> real)
  {
    forall i | 0 <= i < |d.kernel.step(x, a)| ::
      here(d.kernel.step(x, a)[i].atom) == there(MapAtom(d.kernel.step(x, a)[i].atom, StateMap(ga, g)))
  }

  /** The moved mixture at `g x` is worth the mixture at `x`. */
  lemma MixedStepInvariant<G(!new), S(!new), A(!new), F(!new), C, L>(
      d: Domain<S, A, F, C, L>, ga: GroupAction<G, S, A>, g: G, x: S, mix: Mixture<A>,
      there: Atom<S, F> -> real, here: Atom<S, F> -> real)
    requires Injective(ga, g) && LawsMatch(d, ga, g, x) && mix.Keys <= d.kernel.actions(x)
    requires forall a | a in d.kernel.actions(x) :: Pulled(d, ga, g, x, a, there, here)
    ensures MixedStep(d, Moved(ga, g, mix), ga.onState(g, x), there) == MixedStep(d, mix, x, here)
  {
    hide SumOver, StepEquivariant, Injective;
    var moved, image := Moved(ga, g, mix), ga.onState(g, x);
    var t := (a: A) => ga.onAction(g, a);
    forall a | a in mix.Keys
      ensures StepTerm(d, moved, image, there)(t(a)) == StepTerm(d, mix, x, here)(a)
    {
      assert Pulled(d, ga, g, x, a, there, here);
      StepExpect(d.kernel, ga, g, x, a, there, here);
      MovedWeight(ga, g, mix, a);
    }
    forall a, b | a in mix.Keys && b in mix.Keys && t(a) == t(b)
      ensures a == b
    {
      MovesApart(ga, g, a, b);
    }
    SumReindex(mix.Keys, t, StepTerm(d, mix, x, here), StepTerm(d, moved, image, there));
    assert (set a | a in mix.Keys :: t(a)) == moved.Keys;
  }

  lemma MovedWeight<G, S, A(!new)>(ga: GroupAction<G, S, A>, g: G, mix: Mixture<A>, a: A)
    requires Injective(ga, g) && a in mix
    ensures Weight(Moved(ga, g, mix), ga.onAction(g, a)) == Weight(mix, a)
  {
    assert ga.onAction(g, a) in Moved(ga, g, mix);
  }

  lemma MovesApart<G, S, A(!new)>(ga: GroupAction<G, S, A>, g: G, a: A, b: A)
    requires Injective(ga, g) && ga.onAction(g, a) == ga.onAction(g, b)
    ensures a == b
  {
  }

  /** What the value theorem assumes of the domain beyond a passed check. */
  ghost predicate Checked<G(!new), S(!new), A(!new), F(!new), C, L(!new)>(d: Domain<S, A, F, C, L>, ga: GroupAction<G, S, A>) {
    GroupLaws(ga) && Passed(d, ga) && LabelsMarkActivity(d) && Closed(d)
  }

  ghost predicate OrbitValues<G, S(!new), A, F, C, L>(
      d: Domain<S, A, F, C, L>, ga: GroupAction<G, S, A>, w: F -> real, sigma: Semantic<C, L>, g: G, h: nat)
  {
    forall y {:trigger LiftedReward(d, w, sigma, h, y)} {:trigger LiftedFailure(d, sigma, h, y)} | y in d.covered ::
      && LiftedReward(d, w, sigma, h, ga.onState(g, y)) == LiftedReward(d, w, sigma, h, y)
      && LiftedFailure(d, sigma, h, ga.onState(g, y)) == LiftedFailure(d, sigma, h, y)
  }

  lemma BranchesPulled<G(!new), S(!new), A(!new), F(!new), C, L(!new)>(
      d: Domain<S, A, F, C, L>, ga: GroupAction<G, S, A>, w: F -> real, g: G, x: S, a: A, v: S -> real)
    requires Checked(d, ga) && g in ga.elements && x in d.covered && !d.kernel.terminal(x) && a in d.kernel.actions(x)
    requires forall y | y in d.covered :: v(ga.onState(g, y)) == v(y)
    ensures Pulled(d, ga, g, x, a, RewardBranch(d.kernel, w, v), RewardBranch(d.kernel, w, v))
    ensures Pulled(d, ga, g, x, a, FailureBranch(d.kernel, v), FailureBranch(d.kernel, v))
  {
    hide GroupLaws, Passed, LabelsMarkActivity;
    forall i | 0 <= i < |d.kernel.step(x, a)|
      ensures var atom := d.kernel.step(x, a)[i].atom;
              var image := MapAtom(atom, StateMap(ga, g));
              && RewardBranch(d.kernel, w, v)(atom) == RewardBranch(d.kernel, w, v)(image)
              && FailureBranch(d.kernel, v)(atom) == FailureBranch(d.kernel, v)(image)
    {
      var atom := d.kernel.step(x, a)[i].atom;
      if Continues(atom) {
        TerminalInvariant(d, ga, g, atom.next);
      }
    }
  }

  lemma OrbitValueStep<G(!new), S(!new), A(!new), F(!new), C, L(!new)>(
      d: Domain<S, A, F, C, L>, ga: GroupAction<G, S, A>, w: F -> real, sigma: Semantic<C, L>, g: G, h: nat, x: S)
    requires Checked(d, ga) && Available(d, sigma) && g in ga.elements && x in d.covered && h > 0
    requires OrbitValues(d, ga, w, sigma, g, h - 1)
    ensures LiftedReward(d, w, sigma, h, ga.onState(g, x)) == LiftedReward(d, w, sigma, h, x)
    ensures LiftedFailure(d, sigma, h, ga.onState(g, x)) == LiftedFailure(d, sigma, h, x)
  {
    TerminalInvariant(d, ga, g, x);
    if !d.kernel.terminal(x) {
      var reward := (y: S) => LiftedReward(d, w, sigma, h - 1, y);
      var failure := (y: S) => LiftedFailure(d, sigma, h - 1, y);
      var mix := d.concretize(x, sigma(h, d.cell(x)));
      SelectedMixture(d, ga, sigma, g, h, x);
      forall a | a in d.kernel.actions(x)
        ensures Pulled(d, ga, g, x, a, RewardBranch(d.kernel, w, reward), RewardBranch(d.kernel, w, reward))
        ensures Pulled(d, ga, g, x, a, FailureBranch(d.kernel, failure), FailureBranch(d.kernel, failure))
      {
        BranchesPulled(d, ga, w, g, x, a, reward);
        BranchesPulled(d, ga, w, g, x, a, failure);
      }
      MixedStepInvariant(d, ga, g, x, mix, RewardBranch(d.kernel, w, reward), RewardBranch(d.kernel, w, reward));
      MixedStepInvariant(d, ga, g, x, mix, FailureBranch(d.kernel, failure), FailureBranch(d.kernel, failure));
    }
  }

  /** The mixture selected at `g x` is the moved mixture selected at `x`. */
  lemma SelectedMixture<G(!new), S(!new), A(!new), F(!new), C, L(!new)>(
      d: Domain<S, A, F, C, L>, ga: GroupAction<G, S, A>, sigma: Semantic<C, L>, g: G, h: nat, x: S)
    requires Checked(d, ga) && Available(d, sigma) && g in ga.elements && x in d.covered && h > 0 && !d.kernel.terminal(x)
    ensures Injective(ga, g) && LawsMatch(d, ga, g, x)
    ensures var mix := d.concretize(x, sigma(h, d.cell(x)));
            && mix.Keys <= d.kernel.actions(x)
            && d.concretize(ga.onState(g, x), sigma(h, d.cell(ga.onState(g, x)))) == Moved(ga, g, mix)
  {
    hide GroupLaws, LabelsMarkActivity, Injective, LawsMatch;
    assert SymmetricAt(d, ga, g, x);
    var l := sigma(h, d.cell(x));
    var i :| 0 <= i < |d.labels(x)| && d.labels(x)[i] == l;
  }

  /** Every semantic policy has one exact lifted reward and failure probability per orbit, at
      every horizon. */
  lemma LiftedValuesConstantOnOrbits<G(!new), S(!new), A(!new), F(!new), C, L(!new)>(
      d: Domain<S, A, F, C, L>, ga: GroupAction<G, S, A>, w: F -> real, sigma: Semantic<C, L>, g: G, h: nat)
    requires Checked(d, ga) && Available(d, sigma) && g in ga.elements
    ensures OrbitValues(d, ga, w, sigma, g, h)
  {
    hide Checked, Available;
    var j: nat := 0;
    while j < h
      invariant j <= h && OrbitValues(d, ga, w, sigma, g, j)
    {
      var next := j + 1;
      forall x | x in d.covered
        ensures LiftedReward(d, w, sigma, next, ga.onState(g, x)) == LiftedReward(d, w, sigma, next, x)
        ensures LiftedFailure(d, sigma, next, ga.onState(g, x)) == LiftedFailure(d, sigma, next, x)
      {
        OrbitValueStep(d, ga, w, sigma, g, next, x);
      }
      j := next;
    }
  }
}
