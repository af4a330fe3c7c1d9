/** Enumeration of the orbit-closed state-time pairs reachable from a query: a capped worklist that
    enqueues whole orbits. */
module OrbitClosure {
  import opened Outcomes
  import opened Symmetry

  type Pairs<S(==)> = set<(nat, S)>

  ghost predicate OrbitClosed<G(!new), S(!new), A>(ga: GroupAction<G, S, A>, pairs: Pairs<S>) {
    forall p, g {:trigger ga.onState(g, p.1), p in pairs} | p in pairs && g in ga.elements :: (p.0, ga.onState(g, p.1)) in pairs
  }

  predicate Active<S, A, F>(k: Kernel<S, A, F>, p: (nat, S)) {
    p.0 > 0 && !k.terminal(p.1)
  }

  /** All successors of one active pair are in the set. */
  ghost predicate Expanded<S(!new), A(!new), F>(k: Kernel<S, A, F>, p: (nat, S), pairs: Pairs<S>) {
    Active(k, p) ==>
      forall a | a in k.actions(p.1) :: ActionExpanded(k, p, a, pairs)
  }

  ghost predicate ActionExpanded<S, A, F>(k: Kernel<S, A, F>, p: (nat, S), a: A, pairs: Pairs<S>)
    requires p.0 > 0
  {
    forall i | 0 <= i < |k.step(p.1, a)| :: (p.0 - 1, k.step(p.1, a)[i].atom.next) in pairs
  }

  ghost predicate Seeded<S>(initial: seq<(real, S)>, horizon: nat, pairs: Pairs<S>) {
    forall i | 0 <= i < |initial| && initial[i].0 > 0.0 :: (horizon, initial[i].1) in pairs
  }

  /** A set that contains the initial pairs and is closed under steps and under the group. */
  ghost predicate Complete<G(!new), S(!new), A(!new), F>(
      k: Kernel<S, A, F>, ga: GroupAction<G, S, A>, initial: seq<(real, S)>, horizon: nat, pairs: Pairs<S>)
  {
    Seeded(initial, horizon, pairs) && OrbitClosed(ga, pairs) && forall p | p in pairs :: Expanded(k, p, pairs)
  }

  /** Contained in every complete set. */
  ghost predicate Least<G(!new), S(!new), A(!new), F>(
      k: Kernel<S, A, F>, ga: GroupAction<G, S, A>, initial: seq<(real, S)>, horizon: nat, pairs: Pairs<S>)
  {
    forall other {:trigger Complete(k, ga, initial, horizon, other)} | Complete(k, ga, initial, horizon, other) :: pairs <= other
  }

  function OrbitPairs<G, S(==), A>(ga: GroupAction<G, S, A>, h: nat, x: S): Pairs<S> {
    set i | 0 <= i < |ga.elements| :: (h, ga.onState(ga.elements[i], x))
  }

  lemma OrbitContains<G(!new), S(!new), A(!new)>(ga: GroupAction<G, S, A>, h: nat, x: S)
    requires GroupLaws(ga)
    ensures (h, x) in OrbitPairs(ga, h, x)
  {
    var g := ga.elements[0];
    var e := ga.compose(ga.inverse(g), g);
    assert g in ga.elements && ga.inverse(g) in ga.elements && e in ga.elements;
    assert ga.onState(e, x) == ga.onState(ga.inverse(g), ga.onState(g, x)) == x;
    var i :| 0 <= i < |ga.elements| && ga.elements[i] == e;
    assert (h, ga.onState(ga.elements[i], x)) == (h, x);
  }

  lemma OrbitIsClosed<G(!new), S(!new), A(!new)>(ga: GroupAction<G, S, A>, h: nat, x: S)
    requires GroupLaws(ga)
    ensures OrbitClosed(ga, OrbitPairs(ga, h, x))
  {
    forall p, g | p in OrbitPairs(ga, h, x) && g in ga.elements
      ensures (p.0, ga.onState(g, p.1)) in OrbitPairs(ga, h, x)
    {
      var i :| 0 <= i < |ga.elements| && p == (h, ga.onState(ga.elements[i], x));
      var e := ga.compose(g, ga.elements[i]);
      assert e in ga.elements && ga.onState(e, x) == ga.onState(g, p.1);
      var j :| 0 <= j < |ga.elements| && ga.elements[j] == e;
      assert (h, ga.onState(ga.elements[j], x)) in OrbitPairs(ga, h, x);
    }
  }

  lemma OrbitInside<G(!new), S(!new), A(!new)>(ga: GroupAction<G, S, A>, h: nat, x: S, pairs: Pairs<S>)
    requires OrbitClosed(ga, pairs) && (h, x) in pairs
    ensures OrbitPairs(ga, h, x) <= pairs
  {
    forall p | p in OrbitPairs(ga, h, x)
      ensures p in pairs
    {
      var i :| 0 <= i < |ga.elements| && p == (h, ga.onState(ga.elements[i], x));
      assert (h, x) in pairs && ga.elements[i] in ga.elements;
      assert ((h, x).0, ga.onState(ga.elements[i], (h, x).1)) in pairs;
    }
  }

  lemma UnionClosed<G(!new), S(!new), A(!new)>(ga: GroupAction<G, S, A>, ps: Pairs<S>, qs: Pairs<S>)
    requires OrbitClosed(ga, ps) && OrbitClosed(ga, qs)
    ensures OrbitClosed(ga, ps + qs)
  {
  }

  // ---- The worklist -----------------------------------------------------------------------

  /** What the loops keep: seen pairs are orbit-closed, within the cap and in every complete set,
      and everything not pending is expanded. */
  ghost predicate Progress<G(!new), S(!new), A(!new), F>(
      k: Kernel<S, A, F>, ga: GroupAction<G, S, A>, initial: seq<(real, S)>, horizon: nat, cap: nat,
      seen: Pairs<S>, pending: Pairs<S>)
  {
    && pending <= seen && |seen| <= cap && OrbitClosed(ga, seen) && Least(k, ga, initial, horizon, seen)
    && forall p | p in seen && p !in pending :: Expanded(k, p, seen)
  }

  /** The set cannot be completed within the cap. */
  ghost predicate TooLarge<G(!new), S(!new), A(!new), F>(
      k: Kernel<S, A, F>, ga: GroupAction<G, S, A>, initial: seq<(real, S)>, horizon: nat, cap: nat)
  {
    forall other {:trigger Complete(k, ga, initial, horizon, other)} | Complete(k, ga, initial, horizon, other) :: |other| > cap
  }

  /** Adding the orbit of one state, image by image, unless the cap is reached first. */
  method EnqueueOrbit<G(!new), S(==, !new), A(!new)>(
      ga: GroupAction<G, S, A>, h: nat, x: S, cap: nat, seen: Pairs<S>, pending: Pairs<S>)
    returns (within: bool, seen': Pairs<S>, pending': Pairs<S>)
    requires |seen| <= cap && pending <= seen
    ensures within <==> |seen + OrbitPairs(ga, h, x)| <= cap
    ensures within ==> seen' == seen + OrbitPairs(ga, h, x) && pending' == pending + (seen' - seen)
  {
    hide Images, OrbitPairs;
    seen', pending' := seen, pending;
    ImagesStart(ga, h, x);
    for i := 0 to |ga.elements|
      invariant seen' == seen + Images(ga, h, x, i)
      invariant pending' == pending + (seen' - seen) && |seen'| <= cap
    {
      var pair := (h, ga.onState(ga.elements[i], x));
      ImagesStep(ga, h, x, i);
      AddPair(seen, seen', pending, pair, Images(ga, h, x, i));
      if pair !in seen' {
        if |seen'| >= cap {
          Smaller(seen' + {pair}, seen + OrbitPairs(ga, h, x));
          return false, {}, {};
        }
        seen', pending' := seen' + {pair}, pending' + {pair};
      }
    }
    ImagesStart(ga, h, x);
    within := true;
  }

  lemma AddPair<T>(seen: set<T>, now: set<T>, pending: set<T>, pair: T, images: set<T>)
    requires now == seen + images
    ensures now + {pair} == seen + (images + {pair})
    ensures pair !in now ==> pending + (now - seen) + {pair} == pending + (now + {pair} - seen) && |now + {pair}| == |now| + 1
    ensures pair in now ==> now + {pair} == now
  {
  }

  ghost function Images<G, S, A>(ga: GroupAction<G, S, A>, h: nat, x: S, n: nat): Pairs<S>
    requires n <= |ga.elements|
  {
    set i | 0 <= i < n :: (h, ga.onState(ga.elements[i], x))
  }

  lemma ImagesStart<G, S, A>(ga: GroupAction<G, S, A>, h: nat, x: S)
    ensures Images(ga, h, x, 0) == {} && Images(ga, h, x, |ga.elements|) == OrbitPairs(ga, h, x)
  {
  }

  lemma ImagesStep<G, S, A>(ga: GroupAction<G, S, A>, h: nat, x: S, n: nat)
    requires n < |ga.elements|
    ensures Images(ga, h, x, n + 1) == Images(ga, h, x, n) + {(h, ga.onState(ga.elements[n], x))}
    ensures Images(ga, h, x, n + 1) <= OrbitPairs(ga, h, x)
  {
  }

  lemma {:induction false} Smaller<T>(xs: set<T>, ys: set<T>)
    requires xs <= ys
    ensures |xs| <= |ys|
  {
    assert ys == xs + (ys - xs);
  }

  /** One enqueued orbit keeps the loop facts, or shows that the cap is too small. */
  lemma Enqueued<G(!new), S(!new), A(!new), F>(
      k: Kernel<S, A, F>, ga: GroupAction<G, S, A>, initial: seq<(real, S)>, horizon: nat, cap: nat,
      seen: Pairs<S>, pending: Pairs<S>, h: nat, x: S)
    requires GroupLaws(ga) && OrbitClosed(ga, seen) && Least(k, ga, initial, horizon, seen)
    requires forall other {:trigger Complete(k, ga, initial, horizon, other)} | Complete(k, ga, initial, horizon, other) :: (h, x) in other
    ensures var more := seen + OrbitPairs(ga, h, x);
            && OrbitClosed(ga, more) && Least(k, ga, initial, horizon, more) && (h, x) in more
            && (|more| > cap ==> TooLarge(k, ga, initial, horizon, cap))
  {
    var more := seen + OrbitPairs(ga, h, x);
    OrbitIsClosed(ga, h, x);
    OrbitContains(ga, h, x);
    UnionClosed(ga, seen, OrbitPairs(ga, h, x));
    forall other | Complete(k, ga, initial, horizon, other)
      ensures more <= other && |more| <= |other|
    {
      OrbitInside(ga, h, x, other);
      Smaller(more, other);
    }
  }

  lemma ExpandedGrows<S(!new), A(!new), F>(k: Kernel<S, A, F>, p: (nat, S), pairs: Pairs<S>, more: Pairs<S>)
    requires Expanded(k, p, pairs) && pairs <= more
    ensures Expanded(k, p, more)
  {
    if Active(k, p) {
      forall a | a in k.actions(p.1)
        ensures ActionExpanded(k, p, a, more)
      {
        assert ActionExpanded(k, p, a, pairs);
      }
    }
  }

  lemma ProgressAfterEnqueue<G(!new), S(!new), A(!new), F>(
      k: Kernel<S, A, F>, ga: GroupAction<G, S, A>, initial: seq<(real, S)>, horizon: nat, cap: nat,
      seen: Pairs<S>, pending: Pairs<S>, current: Pairs<S>, h: nat, x: S)
    requires GroupLaws(ga) && Progress(k, ga, initial, horizon, cap, seen, pending + current) && current <= seen
    requires forall other {:trigger Complete(k, ga, initial, horizon, other)} | Complete(k, ga, initial, horizon, other) :: (h, x) in other
    ensures var more := seen + OrbitPairs(ga, h, x);
            && (h, x) in more
            && (|more| <= cap ==> Progress(k, ga, initial, horizon, cap, more, pending + (more - seen) + current))
            && (|more| > cap ==> TooLarge(k, ga, initial, horizon, cap))
  {
    hide GroupLaws, OrbitClosed, Least, OrbitPairs, TooLarge, Expanded;
    var more := seen + OrbitPairs(ga, h, x);
    Enqueued(k, ga, initial, horizon, cap, seen, pending, h, x);
    var waiting := pending + (more - seen) + current;
    forall p | p in more && p !in waiting
      ensures Expanded(k, p, more)
    {
      assert p in seen && p !in pending + current;
      ExpandedGrows(k, p, seen, more);
    }
  }

  /** A successor of a pair in every complete set is in every complete set. */
  lemma SuccessorForced<G(!new), S(!new), A(!new), F>(
      k: Kernel<S, A, F>, ga: GroupAction<G, S, A>, initial: seq<(real, S)>, horizon: nat,
      seen: Pairs<S>, p: (nat, S), a: A, i: nat)
    requires Least(k, ga, initial, horizon, seen) && p in seen && Active(k, p) && a in k.actions(p.1) && i < |k.step(p.1, a)|
    ensures forall other {:trigger Complete(k, ga, initial, horizon, other)} | Complete(k, ga, initial, horizon, other) ::
              (p.0 - 1, k.step(p.1, a)[i].atom.next) in other
  {
    forall other | Complete(k, ga, initial, horizon, other)
      ensures (p.0 - 1, k.step(p.1, a)[i].atom.next) in other
    {
      assert p in other && Expanded(k, p, other);
      assert ActionExpanded(k, p, a, other);
    }
  }

  datatype Closure<!S(==)> = Enumerated(pairs: Pairs<S>) | CapExceeded | NoLegalAction

  method ExpandAction<G(!new), S(==, !new), A(!new), F>(
      k: Kernel<S, A, F>, ga: GroupAction<G, S, A>, ghost initial: seq<(real, S)>, ghost horizon: nat, cap: nat,
      p: (nat, S), a: A, seen: Pairs<S>, pending: Pairs<S>)
    returns (within: bool, seen': Pairs<S>, pending': Pairs<S>)
    requires GroupLaws(ga) && Progress(k, ga, initial, horizon, cap, seen, pending + {p})
    requires p in seen && Active(k, p) && a in k.actions(p.1)
    ensures within ==> seen <= seen' && Progress(k, ga, initial, horizon, cap, seen', pending' + {p})
    ensures within ==> pending' == pending + (seen' - seen) && ActionExpanded(k, p, a, seen')
    ensures !within ==> TooLarge(k, ga, initial, horizon, cap)
  {
    hide GroupLaws, OrbitClosed, Least, OrbitPairs, TooLarge, Expanded;
    seen', pending' := seen, pending;
    var os := k.step(p.1, a);
    for i := 0 to |os|
      invariant seen <= seen' && Progress(k, ga, initial, horizon, cap, seen', pending' + {p})
      invariant pending' <= seen' && pending' == pending + (seen' - seen)
      invariant forall j | 0 <= j < i :: (p.0 - 1, os[j].atom.next) in seen'
    {
      var y := os[i].atom.next;
      ghost var s, q := seen', pending';
      SuccessorForced(k, ga, initial, horizon, s, p, a, i);
      ProgressAfterEnqueue(k, ga, initial, horizon, cap, s, q, {p}, p.0 - 1, y);
      within, seen', pending' := EnqueueOrbit(ga, p.0 - 1, y, cap, seen', pending');
      if !within {
        return;
      }
    }
    within := true;
  }

  /** All actions of one pending pair. */
  method ExpandPair<G(!new), S(==, !new), A(==, !new), F>(
      k: Kernel<S, A, F>, ga: GroupAction<G, S, A>, ghost initial: seq<(real, S)>, ghost horizon: nat, cap: nat,
      p: (nat, S), seen: Pairs<S>, pending: Pairs<S>)
    returns (within: bool, seen': Pairs<S>, pending': Pairs<S>)
    requires GroupLaws(ga) && Progress(k, ga, initial, horizon, cap, seen, pending + {p}) && p in seen && Active(k, p)
    ensures within ==> seen <= seen' && Progress(k, ga, initial, horizon, cap, seen', pending' + {p})
    ensures within ==> pending' == pending + (seen' - seen) && Expanded(k, p, seen')
    ensures !within ==> TooLarge(k, ga, initial, horizon, cap)
  {
    hide GroupLaws, Progress, TooLarge, ActionExpanded;
    seen', pending' := seen, pending;
    var actions := k.actions(p.1);
    while actions != {}
      invariant actions <= k.actions(p.1)
      invariant seen <= seen' && Progress(k, ga, initial, horizon, cap, seen', pending' + {p})
      invariant pending' == pending + (seen' - seen)
      invariant forall a | a in k.actions(p.1) - actions :: ActionExpanded(k, p, a, seen')
    {
      var a :| a in actions;
      ghost var before := seen';
      within, seen', pending' := ExpandAction(k, ga, initial, horizon, cap, p, a, seen', pending');
      if !within {
        return;
      }
      forall b | b in k.actions(p.1) - actions
        ensures ActionExpanded(k, p, b, seen')
      {
        ActionExpandedGrows(k, p, b, before, seen');
      }
      actions := actions - {a};
    }
    within := true;
  }

  lemma ActionExpandedGrows<S(!new), A(!new), F>(k: Kernel<S, A, F>, p: (nat, S), a: A, pairs: Pairs<S>, more: Pairs<S>)
    requires p.0 > 0 && ActionExpanded(k, p, a, pairs) && pairs <= more
    ensures ActionExpanded(k, p, a, more)
  {
  }

  method SeedInitial<G(!new), S(==, !new), A(!new), F>(
      k: Kernel<S, A, F>, ga: GroupAction<G, S, A>, initial: seq<(real, S)>, horizon: nat, cap: nat)
    returns (within: bool, seen: Pairs<S>, pending: Pairs<S>)
    requires GroupLaws(ga)
    ensures within ==> Progress(k, ga, initial, horizon, cap, seen, pending) && Seeded(initial, horizon, seen) && pending == seen
    ensures !within ==> TooLarge(k, ga, initial, horizon, cap)
  {
    hide GroupLaws, OrbitClosed, OrbitPairs, TooLarge, Expanded;
    seen, pending := {}, {};
    assert Progress(k, ga, initial, horizon, cap, {}, {}) by { NothingYet(k, ga, initial, horizon); }
    for i := 0 to |initial|
      invariant Progress(k, ga, initial, horizon, cap, seen, pending) && pending == seen
      invariant forall j | 0 <= j < i && initial[j].0 > 0.0 :: (horizon, initial[j].1) in seen
    {
      if initial[i].0 > 0.0 {
        assert pending + {} == pending;
        ghost var more := seen + OrbitPairs(ga, horizon, initial[i].1);
        ProgressAfterEnqueue(k, ga, initial, horizon, cap, seen, pending, {}, horizon, initial[i].1);
        assert pending + (more - seen) + {} == pending + (more - seen);
        within, seen, pending := EnqueueOrbit(ga, horizon, initial[i].1, cap, seen, pending);
        if !within {
          return;
        }
      }
    }
    within := true;
  }

  lemma NothingYet<G(!new), S(!new), A(!new), F>(
      k: Kernel<S, A, F>, ga: GroupAction<G, S, A>, initial: seq<(real, S)>, horizon: nat)
    ensures OrbitClosed(ga, {}) && Least(k, ga, initial, horizon, {})
  {
  }

  /** A pair every complete set contains, active and without a legal action. */
  ghost predicate DeadEnd<G(!new), S(!new), A(!new), F>(
      k: Kernel<S, A, F>, ga: GroupAction<G, S, A>, initial: seq<(real, S)>, horizon: nat, p: (nat, S))
  {
    Active(k, p) && k.actions(p.1) == {} && Least(k, ga, initial, horizon, {p})
  }

  lemma Popped<G(!new), S(!new), A(!new), F>(
      k: Kernel<S, A, F>, ga: GroupAction<G, S, A>, initial: seq<(real, S)>, horizon: nat, cap: nat,
      seen: Pairs<S>, pending: Pairs<S>, p: (nat, S))
    requires Progress(k, ga, initial, horizon, cap, seen, pending + {p}) && Expanded(k, p, seen)
    ensures Progress(k, ga, initial, horizon, cap, seen, pending)
  {
  }

  /** The worklist returns the least complete set of pairs, in which every active pair has a legal
      action; it exceeds its cap only if no complete set fits, and reports a missing action only
      for a pair that every complete set contains. */
  method EnumerateOrbitClosure<G(!new), S(==, !new), A(==, !new), F>(
      k: Kernel<S, A, F>, ga: GroupAction<G, S, A>, initial: seq<(real, S)>, horizon: nat, cap: nat)
    returns (r: Closure<S>)
    requires GroupLaws(ga)
    ensures r.Enumerated? ==> Complete(k, ga, initial, horizon, r.pairs) && Least(k, ga, initial, horizon, r.pairs)
    ensures r.Enumerated? ==> |r.pairs| <= cap && Playable(k, r.pairs)
    ensures r.CapExceeded? ==> TooLarge(k, ga, initial, horizon, cap)
    ensures r.NoLegalAction? ==> exists p :: DeadEnd(k, ga, initial, horizon, p)
  {
    hide GroupLaws, OrbitClosed, Least, TooLarge, Expanded, Seeded, Playable, DeadEnd, Progress, Complete;
    var within, seen, pending := SeedInitial(k, ga, initial, horizon, cap);
    if !within {
      return CapExceeded;
    }
    NothingPlayable(k, seen - pending);
    ProgressFacts(k, ga, initial, horizon, cap, seen, pending);
    while pending != {}
      invariant Progress(k, ga, initial, horizon, cap, seen, pending) && Seeded(initial, horizon, seen)
      invariant pending <= seen && |seen| <= cap
      invariant Playable(k, seen - pending)
      decreases cap - |seen|, |pending|
    {
      var p :| p in pending;
      ghost var before, waiting := seen, pending;
      pending := pending - {p};
      assert pending + {p} == waiting;
      if Active(k, p) && k.actions(p.1) == {} {
        PairIsForced(k, ga, initial, horizon, cap, seen, waiting, p);
        return NoLegalAction;
      }
      if Active(k, p) {
        within, seen, pending := ExpandPair(k, ga, initial, horizon, cap, p, seen, pending);
        if !within {
          return CapExceeded;
        }
      } else {
        InactiveIsExpanded(k, p, seen);
      }
      Popped(k, ga, initial, horizon, cap, seen, pending, p);
      Taken(k, before, waiting, seen, pending, p);
      SeededGrows(initial, horizon, before, seen);
      ProgressFacts(k, ga, initial, horizon, cap, seen, pending);
    }
    assert seen - pending == seen;
    Finished(k, ga, initial, horizon, cap, seen);
    r := Enumerated(seen);
  }

  lemma ProgressFacts<G(!new), S(!new), A(!new), F>(
      k: Kernel<S, A, F>, ga: GroupAction<G, S, A>, initial: seq<(real, S)>, horizon: nat, cap: nat,
      seen: Pairs<S>, pending: Pairs<S>)
    requires Progress(k, ga, initial, horizon, cap, seen, pending)
    ensures pending <= seen && |seen| <= cap
  {
  }

  lemma Finished<G(!new), S(!new), A(!new), F>(
      k: Kernel<S, A, F>, ga: GroupAction<G, S, A>, initial: seq<(real, S)>, horizon: nat, cap: nat, seen: Pairs<S>)
    requires Progress(k, ga, initial, horizon, cap, seen, {}) && Seeded(initial, horizon, seen)
    ensures Complete(k, ga, initial, horizon, seen) && Least(k, ga, initial, horizon, seen)
  {
  }

  lemma SeededGrows<S>(initial: seq<(real, S)>, horizon: nat, pairs: Pairs<S>, more: Pairs<S>)
    requires Seeded(initial, horizon, pairs) && pairs <= more
    ensures Seeded(initial, horizon, more)
  {
  }

  lemma NothingPlayable<S(!new), A, F>(k: Kernel<S, A, F>, pairs: Pairs<S>)
    requires pairs == {}
    ensures Playable(k, pairs)
  {
  }

  /** Every active pair has a legal action. */
  ghost predicate Playable<S(!new), A, F>(k: Kernel<S, A, F>, pairs: Pairs<S>) {
    forall p | p in pairs && Active(k, p) :: k.actions(p.1) != {}
  }

  /** Taking one pair shrinks the worklist or grows the seen set. */
  lemma Taken<S(!new), A, F>(
      k: Kernel<S, A, F>, before: Pairs<S>, waiting: Pairs<S>, seen: Pairs<S>, pending: Pairs<S>, p: (nat, S))
    requires p in waiting && before <= seen && pending == waiting - {p} + (seen - before)
    requires Playable(k, before - waiting) && (Active(k, p) ==> k.actions(p.1) != {})
    ensures Playable(k, seen - pending)
    ensures |before| < |seen| || (|before| == |seen| && |pending| < |waiting|)
  {
    if seen == before {
      assert pending == waiting - {p};
    } else {
      Larger(before, seen);
    }
  }

  lemma InactiveIsExpanded<S(!new), A(!new), F>(k: Kernel<S, A, F>, p: (nat, S), pairs: Pairs<S>)
    requires !Active(k, p)
    ensures Expanded(k, p, pairs)
  {
  }

  lemma PairIsForced<G(!new), S(!new), A(!new), F>(
      k: Kernel<S, A, F>, ga: GroupAction<G, S, A>, initial: seq<(real, S)>, horizon: nat, cap: nat,
      seen: Pairs<S>, pending: Pairs<S>, p: (nat, S))
    requires Progress(k, ga, initial, horizon, cap, seen, pending) && p in seen && Active(k, p) && k.actions(p.1) == {}
    ensures DeadEnd(k, ga, initial, horizon, p)
  {
  }

  lemma Larger<T>(xs: set<T>, ys: set<T>)
    requires xs <= ys && xs != ys
    ensures |xs| < |ys|
  {
    assert ys == xs + (ys - xs);
  }

  // ---- What the closure holds -------------------------------------------------------------

  /** One symmetric image, or one outcome of a legal action of a nonterminal state with time left. */
  ghost predicate Leads<G(!new), S(!new), A(!new), F>(
      k: Kernel<S, A, F>, ga: GroupAction<G, S, A>, p: (nat, S), q: (nat, S))
  {
    || (exists g :: g in ga.elements && q == (p.0, ga.onState(g, p.1)))
    || (p.0 > 0 && !k.terminal(p.1)
        && exists a, i :: a in k.actions(p.1) && 0 <= i < |k.step(p.1, a)| && q == (p.0 - 1, k.step(p.1, a)[i].atom.next))
  }

  ghost predicate IsTrace<G(!new), S(!new), A(!new), F>(
      k: Kernel<S, A, F>, ga: GroupAction<G, S, A>, initial: seq<(real, S)>, horizon: nat, trace: seq<(nat, S)>)
  {
    && |trace| > 0
    && (exists i :: 0 <= i < |initial| && initial[i].0 > 0.0 && trace[0] == (horizon, initial[i].1))
    && forall n | 0 <= n < |trace| - 1 :: Leads(k, ga, trace[n], trace[n + 1])
  }

  ghost predicate Reachable<G(!new), S(!new), A(!new), F>(
      k: Kernel<S, A, F>, ga: GroupAction<G, S, A>, initial: seq<(real, S)>, horizon: nat, p: (nat, S))
  {
    exists trace :: IsTrace(k, ga, initial, horizon, trace) && |trace| > 0 && trace[|trace| - 1] == p
  }

  lemma LeadsInside<G(!new), S(!new), A(!new), F>(
      k: Kernel<S, A, F>, ga: GroupAction<G, S, A>, initial: seq<(real, S)>, horizon: nat, pairs: Pairs<S>, p: (nat, S), q: (nat, S))
    requires Complete(k, ga, initial, horizon, pairs) && p in pairs && Leads(k, ga, p, q)
    ensures q in pairs
  {
    assert Expanded(k, p, pairs);
    if a, i :| p.0 > 0 && !k.terminal(p.1) && a in k.actions(p.1) && 0 <= i < |k.step(p.1, a)|
               && q == (p.0 - 1, k.step(p.1, a)[i].atom.next) {
      assert ActionExpanded(k, p, a, pairs);
    }
  }

  lemma {:induction false} TraceInside<G(!new), S(!new), A(!new), F>(
      k: Kernel<S, A, F>, ga: GroupAction<G, S, A>, initial: seq<(real, S)>, horizon: nat, pairs: Pairs<S>, trace: seq<(nat, S)>, n: nat)
    requires Complete(k, ga, initial, horizon, pairs) && IsTrace(k, ga, initial, horizon, trace) && n < |trace|
    ensures trace[n] in pairs
  {
    hide Leads;
    if n > 0 {
      TraceInside(k, ga, initial, horizon, pairs, trace, n - 1);
      assert Leads(k, ga, trace[n - 1], trace[n - 1 + 1]);
      LeadsInside(k, ga, initial, horizon, pairs, trace[n - 1], trace[n]);
    }
  }

  lemma ReachesOn<G(!new), S(!new), A(!new), F>(
      k: Kernel<S, A, F>, ga: GroupAction<G, S, A>, initial: seq<(real, S)>, horizon: nat, p: (nat, S), q: (nat, S))
    requires Reachable(k, ga, initial, horizon, p) && Leads(k, ga, p, q)
    ensures Reachable(k, ga, initial, horizon, q)
  {
    hide Leads;
    var trace :| IsTrace(k, ga, initial, horizon, trace) && trace[|trace| - 1] == p;
    var longer := trace + [q];
    forall n | 0 <= n < |longer| - 1
      ensures Leads(k, ga, longer[n], longer[n + 1])
    {
      if n < |trace| - 1 {
        assert Leads(k, ga, trace[n], trace[n + 1]);
      }
    }
    assert IsTrace(k, ga, initial, horizon, longer);
  }

  lemma ReachedIsComplete<G(!new), S(!new), A(!new), F>(
      k: Kernel<S, A, F>, ga: GroupAction<G, S, A>, initial: seq<(real, S)>, horizon: nat, pairs: Pairs<S>, reached: Pairs<S>)
    requires Complete(k, ga, initial, horizon, pairs)
    requires forall p :: p in reached <==> p in pairs && Reachable(k, ga, initial, horizon, p)
    ensures Complete(k, ga, initial, horizon, reached)
  {
    hide Reachable;
    forall i | 0 <= i < |initial| && initial[i].0 > 0.0
      ensures (horizon, initial[i].1) in reached
    {
      Initially(k, ga, initial, horizon, i);
    }
    forall p, g | p in reached && g in ga.elements
      ensures (p.0, ga.onState(g, p.1)) in reached
    {
      ReachesOn(k, ga, initial, horizon, p, (p.0, ga.onState(g, p.1)));
    }
    forall p | p in reached
      ensures Expanded(k, p, reached)
    {
      ReachedExpands(k, ga, initial, horizon, pairs, reached, p);
    }
  }

  lemma Initially<G(!new), S(!new), A(!new), F>(
      k: Kernel<S, A, F>, ga: GroupAction<G, S, A>, initial: seq<(real, S)>, horizon: nat, i: nat)
    requires i < |initial| && initial[i].0 > 0.0
    ensures Reachable(k, ga, initial, horizon, (horizon, initial[i].1))
  {
    var trace: seq<(nat, S)> := [(horizon, initial[i].1)];
    assert IsTrace(k, ga, initial, horizon, trace) && trace[|trace| - 1] == (horizon, initial[i].1);
  }

  lemma ReachedExpands<G(!new), S(!new), A(!new), F>(
      k: Kernel<S, A, F>, ga: GroupAction<G, S, A>, initial: seq<(real, S)>, horizon: nat, pairs: Pairs<S>, reached: Pairs<S>, p: (nat, S))
    requires Complete(k, ga, initial, horizon, pairs)
    requires forall q :: q in reached <==> q in pairs && Reachable(k, ga, initial, horizon, q)
    requires p in reached
    ensures Expanded(k, p, reached)
  {
    hide Reachable;
    if Active(k, p) {
      forall a, i | a in k.actions(p.1) && 0 <= i < |k.step(p.1, a)|
        ensures (p.0 - 1, k.step(p.1, a)[i].atom.next) in reached
      {
        var q := (p.0 - 1, k.step(p.1, a)[i].atom.next);
        assert Expanded(k, p, pairs) && ActionExpanded(k, p, a, pairs);
        assert Leads(k, ga, p, q);
        ReachesOn(k, ga, initial, horizon, p, q);
      }
    }
  }

  /** The least complete set holds exactly the pairs that symmetries and steps of nonterminal states
      reach from an initial pair. */
  lemma ClosureIsReachability<G(!new), S(!new), A(!new), F>(
      k: Kernel<S, A, F>, ga: GroupAction<G, S, A>, initial: seq<(real, S)>, horizon: nat, pairs: Pairs<S>, p: (nat, S))
    requires Complete(k, ga, initial, horizon, pairs) && Least(k, ga, initial, horizon, pairs)
    ensures p in pairs <==> Reachable(k, ga, initial, horizon, p)
  {
    hide Complete, IsTrace;
    var reached := set q | q in pairs && Reachable(k, ga, initial, horizon, q);
    ReachedIsComplete(k, ga, initial, horizon, pairs, reached);
    if trace :| IsTrace(k, ga, initial, horizon, trace) && |trace| > 0 && trace[|trace| - 1] == p {
      TraceInside(k, ga, initial, horizon, pairs, trace, |trace| - 1);
    }
  }
}
