/** Stabilizer action orbits and inverse-action supports: how one semantic action looks at the
    representative of an orbit and at its other members. */
module OrbitQuotient {
  import opened Symmetry

  // ---- Supports ---------------------------------------------------------------------------

  /** The distinct inverse actions `{t^-1 a : t x = xc}` that concretize the semantic action with
      canonical representative `a` at the orbit member `x`. */
  ghost function Support<G(!new), S, A>(ga: GroupAction<G, S, A>, x: S, xc: S, a: A): set<A> {
    set t | t in ga.elements && ga.onState(t, x) == xc :: ga.onAction(ga.inverse(t), a)
  }

  /** The semantic action's canonical members: the stabilizer orbit of `a` at `xc`. */
  ghost function StabilizerOrbit<G(!new), S, A>(ga: GroupAction<G, S, A>, xc: S, a: A): set<A> {
    set s | s in ga.elements && ga.onState(s, xc) == xc :: ga.onAction(s, a)
  }

  lemma SupportMember<G(!new), S(!new), A(!new)>(ga: GroupAction<G, S, A>, x: S, xc: S, a: A, b: A)
    requires GroupLaws(ga)
    ensures b in Support(ga, x, xc, a) <==>
            exists t :: t in ga.elements && ga.onState(t, x) == xc && ga.onAction(t, b) == a
  {
    if t :| t in ga.elements && ga.onState(t, x) == xc && ga.onAction(t, b) == a {
      assert ga.onAction(ga.inverse(t), ga.onAction(t, b)) == b;
    }
    if b in Support(ga, x, xc, a) {
      var t :| t in ga.elements && ga.onState(t, x) == xc && ga.onAction(ga.inverse(t), a) == b;
      assert ga.onAction(t, ga.onAction(ga.inverse(t), a)) == a;
    }
  }

  /** One transporter carries the support onto the stabilizer orbit. */
  lemma TransporterMeetsOrbit<G(!new), S(!new), A(!new)>(
      ga: GroupAction<G, S, A>, x: S, xc: S, a: A, t: G, b: A)
    requires GroupLaws(ga) && t in ga.elements && ga.onState(t, x) == xc
    ensures b in Support(ga, x, xc, a) <==> ga.onAction(t, b) in StabilizerOrbit(ga, xc, a)
  {
    SupportMember(ga, x, xc, a, b);
    if b in Support(ga, x, xc, a) {
      var u :| u in ga.elements && ga.onState(u, x) == xc && ga.onAction(u, b) == a;
      var s := ga.compose(t, ga.inverse(u));
      assert ga.onState(ga.inverse(u), ga.onState(u, x)) == x;
      assert ga.onState(s, xc) == ga.onState(t, ga.onState(ga.inverse(u), xc)) == xc;
      assert ga.onAction(ga.inverse(u), ga.onAction(u, b)) == b;
      assert ga.onAction(s, a) == ga.onAction(t, ga.onAction(ga.inverse(u), a)) == ga.onAction(t, b);
    }
    if ga.onAction(t, b) in StabilizerOrbit(ga, xc, a) {
      var s :| s in ga.elements && ga.onState(s, xc) == xc && ga.onAction(s, a) == ga.onAction(t, b);
      var u := ga.compose(ga.inverse(s), t);
      assert ga.onState(ga.inverse(s), ga.onState(s, xc)) == xc;
      assert ga.onState(u, x) == ga.onState(ga.inverse(s), xc) == xc;
      assert ga.onAction(ga.inverse(s), ga.onAction(s, a)) == a;
      assert ga.onAction(u, b) == ga.onAction(ga.inverse(s), ga.onAction(t, b)) == a;
    }
  }

  /** The support is the stabilizer orbit pulled back through any single transporter. */
  lemma SupportFromOneTransporter<G(!new), S(!new), A(!new)>(
      ga: GroupAction<G, S, A>, x: S, xc: S, a: A, t: G)
    requires GroupLaws(ga) && t in ga.elements && ga.onState(t, x) == xc
    ensures Support(ga, x, xc, a) == Image(ga, ga.inverse(t), StabilizerOrbit(ga, xc, a))
  {
    forall b
      ensures b in Support(ga, x, xc, a) <==> b in Image(ga, ga.inverse(t), StabilizerOrbit(ga, xc, a))
    {
      TransporterMeetsOrbit(ga, x, xc, a, t, b);
      assert ga.onAction(ga.inverse(t), ga.onAction(t, b)) == b;
      if b in Image(ga, ga.inverse(t), StabilizerOrbit(ga, xc, a)) {
        var d :| d in StabilizerOrbit(ga, xc, a) && ga.onAction(ga.inverse(t), d) == b;
        assert ga.onAction(t, ga.onAction(ga.inverse(t), d)) == d;
      }
    }
  }

  /** Supports move with the group: the support at `g x` is the image of the support at `x`. */
  lemma SupportEquivariant<G(!new), S(!new), A(!new)>(
      ga: GroupAction<G, S, A>, x: S, xc: S, a: A, g: G)
    requires GroupLaws(ga) && g in ga.elements
    ensures Support(ga, ga.onState(g, x), xc, a) == Image(ga, g, Support(ga, x, xc, a))
  {
    forall b
      ensures b in Support(ga, ga.onState(g, x), xc, a) <==> b in Image(ga, g, Support(ga, x, xc, a))
    {
      SupportMoves(ga, x, xc, a, g, b);
    }
  }

  lemma SupportMoves<G(!new), S(!new), A(!new)>(
      ga: GroupAction<G, S, A>, x: S, xc: S, a: A, g: G, b: A)
    requires GroupLaws(ga) && g in ga.elements
    ensures b in Support(ga, ga.onState(g, x), xc, a) <==> b in Image(ga, g, Support(ga, x, xc, a))
  {
    var back := ga.onAction(ga.inverse(g), b);
    assert ga.onAction(g, back) == b;
    SupportMember(ga, ga.onState(g, x), xc, a, b);
    if b in Support(ga, ga.onState(g, x), xc, a) {
      var t :| t in ga.elements && ga.onState(t, ga.onState(g, x)) == xc && ga.onAction(t, b) == a;
      var u := ga.compose(t, g);
      SupportMember(ga, x, xc, a, back);
      assert ga.onState(u, x) == xc && ga.onAction(u, back) == a;
    }
    if b in Image(ga, g, Support(ga, x, xc, a)) {
      var d :| d in Support(ga, x, xc, a) && ga.onAction(g, d) == b;
      SupportMember(ga, x, xc, a, d);
      var u :| u in ga.elements && ga.onState(u, x) == xc && ga.onAction(u, d) == a;
      var t := ga.compose(u, ga.inverse(g));
      assert ga.onState(ga.inverse(g), ga.onState(g, x)) == x;
      assert ga.onAction(ga.inverse(g), ga.onAction(g, d)) == d;
      assert ga.onState(t, ga.onState(g, x)) == xc && ga.onAction(t, b) == a;
    }
  }

  lemma {:induction false} ImageSize<G(!new), S(!new), A(!new)>(ga: GroupAction<G, S, A>, g: G, actions: set<A>)
    requires GroupLaws(ga) && g in ga.elements
    ensures |Image(ga, g, actions)| == |actions|
    decreases |actions|
  {
    if actions != {} {
      var a :| a in actions;
      var rest := actions - {a};
      ImageSize(ga, g, rest);
      forall b | b in rest
        ensures ga.onAction(g, b) != ga.onAction(g, a)
      {
        assert ga.onAction(ga.inverse(g), ga.onAction(g, b)) == b;
        assert ga.onAction(ga.inverse(g), ga.onAction(g, a)) == a;
      }
      assert Image(ga, g, actions) == Image(ga, g, rest) + {ga.onAction(g, a)};
    }
  }

  /** All members of an orbit have supports of the same size, hence the same uniform probability. */
  lemma SupportSizeConstant<G(!new), S(!new), A(!new)>(
      ga: GroupAction<G, S, A>, x: S, xc: S, a: A, g: G)
    requires GroupLaws(ga) && g in ga.elements
    ensures |Support(ga, ga.onState(g, x), xc, a)| == |Support(ga, x, xc, a)|
  {
    SupportEquivariant(ga, x, xc, a, g);
    ImageSize(ga, g, Support(ga, x, xc, a));
  }

  /** `blocks` assigns each label a block; the blocks cover `all` exactly and do not overlap. */
  ghost predicate Partitions<A(!new)>(labels: set<A>, blocks: A -> set<A>, all: set<A>) {
    && (forall b :: b in all <==> exists l :: l in labels && b in blocks(l))
    && (forall l, m, b | l in labels && m in labels && b in blocks(l) && b in blocks(m) :: l == m)
  }

  /** The supports at `x` partition its legal actions exactly when the stabilizer orbits of the
      labels partition the legal actions of the canonical state. */
  lemma SupportsPartitionIff<G(!new), S(!new), A(!new)>(
      ga: GroupAction<G, S, A>, x: S, xc: S, t: G, labels: set<A>, here: set<A>, canonical: set<A>)
    requires GroupLaws(ga) && t in ga.elements && ga.onState(t, x) == xc
    requires Image(ga, t, here) == canonical
    ensures Partitions(labels, a => Support(ga, x, xc, a), here)
       <==> Partitions(labels, a => StabilizerOrbit(ga, xc, a), canonical)
  {
    forall a, b
      ensures b in Support(ga, x, xc, a) <==> ga.onAction(t, b) in StabilizerOrbit(ga, xc, a)
    {
      TransporterMeetsOrbit(ga, x, xc, a, t, b);
    }
    forall b
      ensures b in here <==> ga.onAction(t, b) in canonical
    {
      if ga.onAction(t, b) in canonical {
        var d :| d in here && ga.onAction(t, d) == ga.onAction(t, b);
        assert ga.onAction(ga.inverse(t), ga.onAction(t, d)) == d;
        assert ga.onAction(ga.inverse(t), ga.onAction(t, b)) == b;
      }
    }
    var support, orbit := a => Support(ga, x, xc, a), a => StabilizerOrbit(ga, xc, a);
    if Partitions(labels, support, here) {
      PartitionAcross(ga, t, labels, support, here, orbit, canonical);
    }
    if Partitions(labels, orbit, canonical) {
      assert forall d {:trigger ga.onAction(ga.inverse(t), d)} ::
          ga.onAction(t, ga.onAction(ga.inverse(t), d)) == d;
      PartitionAcross(ga, ga.inverse(t), labels, orbit, canonical, support, here);
    }
  }

  lemma PartitionAcross<G(!new), S(!new), A(!new)>(
      ga: GroupAction<G, S, A>, t: G, labels: set<A>,
      support: A -> set<A>, here: set<A>, orbit: A -> set<A>, canonical: set<A>)
    requires GroupLaws(ga) && t in ga.elements
    requires forall a, b :: b in support(a) <==> ga.onAction(t, b) in orbit(a)
    requires forall b :: b in here <==> ga.onAction(t, b) in canonical
    requires Partitions(labels, support, here)
    ensures Partitions(labels, orbit, canonical)
  {
    forall d
      ensures d in canonical <==> exists l :: l in labels && d in orbit(l)
    {
      var b := ga.onAction(ga.inverse(t), d);
      assert ga.onAction(t, b) == d;
      assert b in here <==> exists l :: l in labels && b in support(l);
      if l :| l in labels && d in orbit(l) {
        assert b in support(l);
      }
      if l :| l in labels && b in support(l) {
        assert d in orbit(l);
      }
    }
    forall l, m, d | l in labels && m in labels && d in orbit(l) && d in orbit(m)
      ensures l == m
    {
      var b := ga.onAction(ga.inverse(t), d);
      assert ga.onAction(t, b) == d;
      assert b in support(l) && b in support(m);
    }
  }

  // ---- Labels -----------------------------------------------------------------------------

  ghost predicate TotalOrder<A(!new)>(before: (A, A) -> bool) {
    && (forall a, b :: before(a, b) || before(b, a))
    && (forall a, b | before(a, b) && before(b, a) :: a == b)
    && (forall a, b, c | before(a, b) && before(b, c) :: before(a, c))
  }

  lemma {:induction false} LeastExists<A(!new)>(before: (A, A) -> bool, actions: set<A>) returns (least: A)
    requires TotalOrder(before) && actions != {}
    ensures least in actions && forall b | b in actions :: before(least, b)
    decreases |actions|
  {
    least :| least in actions;
    if actions != {least} {
      var rest := LeastExists(before, actions - {least});
      if before(rest, least) {
        least := rest;
      }
    }
  }

  /** The canonical actions: those that come first in their stabilizer orbit. */
  ghost function LeastLabels<G(!new), S, A>(
      ga: GroupAction<G, S, A>, before: (A, A) -> bool, xc: S, legal: set<A>): set<A>
  {
    set a | a in legal && forall b | b in StabilizerOrbit(ga, xc, a) :: before(a, b)
  }

  lemma OrbitContains<G(!new), S(!new), A(!new)>(ga: GroupAction<G, S, A>, xc: S, a: A)
    requires GroupLaws(ga)
    ensures a in StabilizerOrbit(ga, xc, a)
  {
    var g := ga.elements[0];
    var e := ga.compose(ga.inverse(g), g);
    assert g in ga.elements && ga.inverse(g) in ga.elements && e in ga.elements;
    assert ga.onState(e, xc) == ga.onState(ga.inverse(g), ga.onState(g, xc)) == xc;
    assert ga.onAction(e, a) == ga.onAction(ga.inverse(g), ga.onAction(g, a)) == a;
  }

  lemma OrbitReaches<G(!new), S(!new), A(!new)>(ga: GroupAction<G, S, A>, xc: S, a: A, b: A, d: A)
    requires GroupLaws(ga) && b in StabilizerOrbit(ga, xc, a) && d in StabilizerOrbit(ga, xc, a)
    ensures d in StabilizerOrbit(ga, xc, b)
  {
    var s :| s in ga.elements && ga.onState(s, xc) == xc && ga.onAction(s, a) == b;
    var t :| t in ga.elements && ga.onState(t, xc) == xc && ga.onAction(t, a) == d;
    var u := ga.compose(t, ga.inverse(s));
    assert ga.onState(ga.inverse(s), ga.onState(s, xc)) == xc;
    assert ga.onState(u, xc) == ga.onState(t, ga.onState(ga.inverse(s), xc)) == xc;
    assert ga.onAction(ga.inverse(s), ga.onAction(s, a)) == a;
    assert ga.onAction(u, b) == ga.onAction(t, ga.onAction(ga.inverse(s), b)) == d;
  }

  /** Members of one stabilizer orbit have the same stabilizer orbit. */
  lemma SameOrbit<G(!new), S(!new), A(!new)>(ga: GroupAction<G, S, A>, xc: S, a: A, b: A)
    requires GroupLaws(ga) && b in StabilizerOrbit(ga, xc, a)
    ensures StabilizerOrbit(ga, xc, b) == StabilizerOrbit(ga, xc, a)
  {
    hide StabilizerOrbit, GroupLaws;
    OrbitContains(ga, xc, a);
    OrbitReaches(ga, xc, a, b, a);
    forall d
      ensures d in StabilizerOrbit(ga, xc, b) <==> d in StabilizerOrbit(ga, xc, a)
    {
      if d in StabilizerOrbit(ga, xc, a) {
        OrbitReaches(ga, xc, a, b, d);
      }
      if d in StabilizerOrbit(ga, xc, b) {
        OrbitReaches(ga, xc, b, a, d);
      }
    }
  }

  ghost predicate Preserved<G(!new), S, A(!new)>(ga: GroupAction<G, S, A>, xc: S, legal: set<A>) {
    forall a | a in legal :: StabilizerOrbit(ga, xc, a) <= legal
  }

  /** If the stabilizer preserves the legal actions, the orbits of the canonical actions partition
      them. */
  lemma LeastLabelsPartition<G(!new), S(!new), A(!new)>(
      ga: GroupAction<G, S, A>, before: (A, A) -> bool, xc: S, legal: set<A>)
    requires GroupLaws(ga) && TotalOrder(before) && Preserved(ga, xc, legal)
    ensures LeastLabels(ga, before, xc, legal) <= legal
    ensures Partitions(LeastLabels(ga, before, xc, legal), a => StabilizerOrbit(ga, xc, a), legal)
  {
    hide StabilizerOrbit, GroupLaws;
    var labels, orbit := LeastLabels(ga, before, xc, legal), (a: A) => StabilizerOrbit(ga, xc, a);
    forall b | b in legal
      ensures exists l :: l in labels && b in orbit(l)
    {
      OrbitContains(ga, xc, b);
      var l := LeastExists(before, StabilizerOrbit(ga, xc, b));
      SameOrbit(ga, xc, b, l);
      assert l in labels && b in orbit(l);
    }
    forall l, m, b | l in labels && m in labels && b in orbit(l) && b in orbit(m)
      ensures l == m
    {
      SameOrbit(ga, xc, l, b);
      SameOrbit(ga, xc, m, b);
      OrbitContains(ga, xc, l);
      OrbitContains(ga, xc, m);
    }
  }

  // ---- The labelling loop -----------------------------------------------------------------

  datatype ActionOrbits<A(==)> = Labelled(labels: set<A>) | NotPreserved

  method StabilizerImages<G(!new), S(==, !new), A(==, !new)>(ga: GroupAction<G, S, A>, xc: S, a: A) returns (images: set<A>)
    ensures images == StabilizerOrbit(ga, xc, a)
  {
    images := {};
    for i := 0 to |ga.elements|
      invariant forall b :: b in images <==>
                  exists j :: 0 <= j < i && ga.onState(ga.elements[j], xc) == xc && ga.onAction(ga.elements[j], a) == b
    {
      if ga.onState(ga.elements[i], xc) == xc {
        images := images + {ga.onAction(ga.elements[i], a)};
      }
    }
    forall b | b in StabilizerOrbit(ga, xc, a)
      ensures b in images
    {
      var s :| s in ga.elements && ga.onState(s, xc) == xc && ga.onAction(s, a) == b;
      var j :| 0 <= j < |ga.elements| && ga.elements[j] == s;
    }
  }

  /** What has been labelled so far: whole orbits, each by its first action. */
  ghost predicate LabelledSo<G(!new), S, A(!new)>(
      ga: GroupAction<G, S, A>, before: (A, A) -> bool, xc: S, legal: set<A>, unseen: set<A>, labels: set<A>)
  {
    && unseen <= legal && Preserved(ga, xc, legal - unseen)
    && labels == LeastLabels(ga, before, xc, legal - unseen)
  }

  /** Taking the first unseen action and its orbit out of the unseen ones, until none is left. */
  method BuildActionOrbits<G(!new), S(==, !new), A(==, !new)>(
      ga: GroupAction<G, S, A>, before: (A, A) -> bool, xc: S, legal: set<A>)
    returns (r: ActionOrbits<A>)
    requires GroupLaws(ga) && TotalOrder(before)
    ensures r.Labelled? <==> Preserved(ga, xc, legal)
    ensures r.Labelled? ==> r.labels == LeastLabels(ga, before, xc, legal)
  {
    hide GroupLaws, StabilizerOrbit, LabelledSo;
    var unseen, labels := legal, {};
    NothingLabelled(ga, before, xc, legal);
    while unseen != {}
      invariant unseen <= legal && LabelledSo(ga, before, xc, legal, unseen, labels)
      decreases |unseen|
    {
      ghost var first := LeastExists(before, unseen);
      var seed :| seed in unseen && forall b | b in unseen :: before(seed, b);
      var images := StabilizerImages(ga, xc, seed);
      if !(images <= legal) {
        assert !Preserved(ga, xc, legal);
        return NotPreserved;
      }
      LabelOne(ga, before, xc, legal, unseen, labels, seed);
      unseen, labels := unseen - images, labels + {seed};
    }
    AllLabelled(ga, before, xc, legal, labels);
    r := Labelled(labels);
  }

  lemma NothingLabelled<G(!new), S(!new), A(!new)>(ga: GroupAction<G, S, A>, before: (A, A) -> bool, xc: S, legal: set<A>)
    ensures LabelledSo(ga, before, xc, legal, legal, {})
  {
  }

  lemma AllLabelled<G(!new), S(!new), A(!new)>(
      ga: GroupAction<G, S, A>, before: (A, A) -> bool, xc: S, legal: set<A>, labels: set<A>)
    requires LabelledSo(ga, before, xc, legal, {}, labels)
    ensures Preserved(ga, xc, legal) && labels == LeastLabels(ga, before, xc, legal)
  {
    assert legal - {} == legal;
  }

  lemma LabelOne<G(!new), S(!new), A(!new)>(
      ga: GroupAction<G, S, A>, before: (A, A) -> bool, xc: S, legal: set<A>, unseen: set<A>, labels: set<A>, seed: A)
    requires GroupLaws(ga) && TotalOrder(before) && LabelledSo(ga, before, xc, legal, unseen, labels)
    requires seed in unseen && (forall b | b in unseen :: before(seed, b)) && StabilizerOrbit(ga, xc, seed) <= legal
    ensures seed in StabilizerOrbit(ga, xc, seed) && StabilizerOrbit(ga, xc, seed) <= unseen
    ensures LabelledSo(ga, before, xc, legal, unseen - StabilizerOrbit(ga, xc, seed), labels + {seed})
  {
    hide GroupLaws, StabilizerOrbit;
    var images := StabilizerOrbit(ga, xc, seed);
    OrbitContains(ga, xc, seed);
    forall b | b in images
      ensures StabilizerOrbit(ga, xc, b) == images && b in unseen
    {
      SameOrbit(ga, xc, seed, b);
    }
    var done, after := legal - unseen, legal - (unseen - images);
    assert after == done + images;
    assert LeastLabels(ga, before, xc, after) == LeastLabels(ga, before, xc, done) + {seed};
  }
}
