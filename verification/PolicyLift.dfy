/** The worklist that lifts an abstract policy to the ground decisions it can reach. */
module PolicyLift {
  import opened Outcomes
  import opened Symmetry

  /** Looking up the cell's label and concretizing it: one action with probability one, or an
      exception (unregistered state, undefined policy, concretizer that is not a singleton). */
  datatype Choice<A> = Chosen(action: A) | Refused

  datatype LiftResult<!S(==), A> = Lifted(decisions: map<(nat, S), A>) | Raised

  type Chooser<!S, !A> = (nat, S) -> Choice<A>

  // ---- What is reachable ------------------------------------------------------------------

  /** The states a decision at `(h, x)` can continue in, with one step less remaining. */
  ghost function Continuations<S, A, F>(k: Kernel<S, A, F>, choose: Chooser<S, A>, h: nat, x: S): set<S> {
    if h <= 1 || k.terminal(x) || choose(h, x).Refused? then {}
    else
      var os := k.step(x, choose(h, x).action);
      set i | 0 <= i < |os| && !Stopped(k, os[i].atom) :: os[i].atom.next
  }

  ghost function Support<S>(initial: seq<(real, S)>): set<S> {
    set i | 0 <= i < |initial| && initial[i].0 > 0.0 :: initial[i].1
  }

  ghost function NextLevel<S, A, F>(k: Kernel<S, A, F>, choose: Chooser<S, A>, h: nat, xs: set<S>): set<S> {
    set x, y | x in xs && y in Continuations(k, choose, h, x) :: y
  }

  /** The states reachable with exactly `h` steps remaining, layer by layer from the horizon. */
  ghost function Level<S, A, F>(
      k: Kernel<S, A, F>, choose: Chooser<S, A>, initial: seq<(real, S)>, horizon: nat, h: nat): set<S>
    requires h <= horizon
    decreases horizon - h
  {
    if h == horizon then Support(initial)
    else NextLevel(k, choose, h + 1, Level(k, choose, initial, horizon, h + 1))
  }

  ghost predicate Decides<S, A, F>(
      k: Kernel<S, A, F>, choose: Chooser<S, A>, initial: seq<(real, S)>, horizon: nat, h: nat, x: S)
  {
    0 < h <= horizon && x in Level(k, choose, initial, horizon, h) && !k.terminal(x)
  }

  ghost function Universe<S, A, F>(
      k: Kernel<S, A, F>, choose: Chooser<S, A>, initial: seq<(real, S)>, horizon: nat): set<(nat, S)>
  {
    set h: nat, x | 0 <= h <= horizon && x in Level(k, choose, initial, horizon, h) :: (h, x)
  }

  /** Visited markers whose continuations are all visited or still pending. */
  ghost predicate Expanded<S(!new), A, F>(
      k: Kernel<S, A, F>, choose: Chooser<S, A>, visited: set<(nat, S)>, pending: seq<(nat, S)>)
  {
    forall h: nat, x, y {:trigger (h, x) in visited, y in Continuations(k, choose, h, x)} |
      (h, x) in visited && y in Continuations(k, choose, h, x) ::
      (h - 1, y) in visited || (h - 1, y) in pending
  }

  lemma {:induction false} VisitedCoversLevel<S(!new), A, F>(
      k: Kernel<S, A, F>, choose: Chooser<S, A>, initial: seq<(real, S)>, horizon: nat, h: nat,
      visited: set<(nat, S)>)
    requires h <= horizon && Expanded(k, choose, visited, [])
    requires forall x | x in Support(initial) :: (horizon, x) in visited
    ensures forall x | x in Level(k, choose, initial, horizon, h) :: (h, x) in visited
    decreases horizon - h
  {
    if h < horizon {
      VisitedCoversLevel(k, choose, initial, horizon, h + 1, visited);
      forall y | y in Level(k, choose, initial, horizon, h)
        ensures (h, y) in visited
      {
        var x :| x in Level(k, choose, initial, horizon, h + 1) && y in Continuations(k, choose, h + 1, x);
        assert (h + 1, x) in visited;
      }
    }
  }

  /** The decisions recorded so far are exactly those of the visited active markers. */
  ghost predicate Recorded<S(!new), A(!new), F>(
      k: Kernel<S, A, F>, choose: Chooser<S, A>, visited: set<(nat, S)>, decisions: map<(nat, S), A>)
  {
    && (forall h: nat, x {:trigger (h, x) in decisions} ::
          (h, x) in decisions <==> (h, x) in visited && h > 0 && !k.terminal(x))
    && (forall h: nat, x {:trigger decisions[(h, x)]} | (h, x) in decisions ::
          choose(h, x) == Chosen(decisions[(h, x)]))
  }

  // ---- The worklist -----------------------------------------------------------------------

  /** Positive-probability initial states at the full horizon. */
  method InitialPending<S(==)>(initial: seq<(real, S)>, horizon: nat) returns (pending: seq<(nat, S)>)
    ensures forall p :: p in pending <==> p.0 == horizon && p.1 in Support(initial)
  {
    pending := [];
    for n := 0 to |initial|
      invariant forall p :: p in pending <==>
                  p.0 == horizon && exists i :: 0 <= i < n && initial[i].0 > 0.0 && initial[i].1 == p.1
    {
      if initial[n].0 > 0.0 {
        pending := pending + [(horizon, initial[n].1)];
      }
    }
  }

  /** Appending the continuing outcomes of one decision, unless it was the last step. */
  method PushContinuations<S(==), A, F>(
      k: Kernel<S, A, F>, ghost choose: Chooser<S, A>, h: nat, x: S, action: A, pending: seq<(nat, S)>)
    returns (extended: seq<(nat, S)>)
    requires !k.terminal(x) && choose(h, x) == Chosen(action)
    ensures forall p :: p in extended <==>
              p in pending || (p.0 == h - 1 && p.1 in Continuations(k, choose, h, x))
  {
    extended := pending;
    if h <= 1 {
      return;
    }
    var os := k.step(x, action);
    for n := 0 to |os|
      invariant forall p :: p in extended <==>
                  p in pending
                  || (p.0 == h - 1 && exists i :: 0 <= i < n && !Stopped(k, os[i].atom) && os[i].atom.next == p.1)
    {
      if !Stopped(k, os[n].atom) {
        extended := extended + [(h - 1, os[n].atom.next)];
      }
    }
  }

  lemma LevelStep<S, A, F>(
      k: Kernel<S, A, F>, choose: Chooser<S, A>, initial: seq<(real, S)>, horizon: nat, h: nat, x: S, y: S)
    requires 0 < h <= horizon && x in Level(k, choose, initial, horizon, h)
    requires y in Continuations(k, choose, h, x)
    ensures y in Level(k, choose, initial, horizon, h - 1)
  {
  }

  lemma ExpandedSkip<S(!new), A, F>(
      k: Kernel<S, A, F>, choose: Chooser<S, A>, visited: set<(nat, S)>, rest: seq<(nat, S)>, marker: (nat, S))
    requires marker in visited && Expanded(k, choose, visited, rest + [marker])
    ensures Expanded(k, choose, visited, rest)
  {
  }

  lemma ExpandedVisit<S(!new), A, F>(
      k: Kernel<S, A, F>, choose: Chooser<S, A>, visited: set<(nat, S)>, rest: seq<(nat, S)>, marker: (nat, S),
      pending: seq<(nat, S)>)
    requires Expanded(k, choose, visited, rest + [marker])
    requires forall p | p in rest :: p in pending
    requires forall y | y in Continuations(k, choose, marker.0, marker.1) :: (marker.0 - 1, y) in pending
    ensures Expanded(k, choose, visited + {marker}, pending)
  {
  }

  lemma RecordedVisit<S(!new), A(!new), F>(
      k: Kernel<S, A, F>, choose: Chooser<S, A>, visited: set<(nat, S)>, decisions: map<(nat, S), A>,
      marker: (nat, S), updated: map<(nat, S), A>)
    requires Recorded(k, choose, visited, decisions) && marker !in visited
    requires if marker.0 == 0 || k.terminal(marker.1) then updated == decisions
             else choose(marker.0, marker.1).Chosen?
                  && updated == decisions[marker := choose(marker.0, marker.1).action]
    ensures Recorded(k, choose, visited + {marker}, updated)
  {
  }

  /** Everything pending or visited is reachable, and nothing reachable has been forgotten. */
  ghost predicate Progress<S(!new), A(!new), F>(
      k: Kernel<S, A, F>, choose: Chooser<S, A>, initial: seq<(real, S)>, horizon: nat,
      visited: set<(nat, S)>, pending: seq<(nat, S)>, decisions: map<(nat, S), A>)
  {
    && visited <= Universe(k, choose, initial, horizon)
    && (forall p | p in pending :: p in Universe(k, choose, initial, horizon))
    && (forall x | x in Support(initial) :: (horizon, x) in visited || (horizon, x) in pending)
    && Expanded(k, choose, visited, pending)
    && Recorded(k, choose, visited, decisions)
  }

  lemma InactiveStops<S, A, F>(k: Kernel<S, A, F>, choose: Chooser<S, A>, h: nat, x: S)
    requires h == 0 || k.terminal(x)
    ensures Continuations(k, choose, h, x) == {}
  {
  }

  lemma Start<S(!new), A(!new), F>(
      k: Kernel<S, A, F>, choose: Chooser<S, A>, initial: seq<(real, S)>, horizon: nat, pending: seq<(nat, S)>)
    requires forall p :: p in pending <==> p.0 == horizon && p.1 in Support(initial)
    ensures Progress(k, choose, initial, horizon, {}, pending, map[])
  {
  }

  lemma Skip<S(!new), A(!new), F>(
      k: Kernel<S, A, F>, choose: Chooser<S, A>, initial: seq<(real, S)>, horizon: nat,
      visited: set<(nat, S)>, rest: seq<(nat, S)>, marker: (nat, S), decisions: map<(nat, S), A>)
    requires Progress(k, choose, initial, horizon, visited, rest + [marker], decisions) && marker in visited
    ensures Progress(k, choose, initial, horizon, visited, rest, decisions)
  {
    hide Recorded, Expanded, Universe;
    ExpandedSkip(k, choose, visited, rest, marker);
  }

  lemma Visit<S(!new), A(!new), F>(
      k: Kernel<S, A, F>, choose: Chooser<S, A>, initial: seq<(real, S)>, horizon: nat,
      visited: set<(nat, S)>, rest: seq<(nat, S)>, marker: (nat, S), decisions: map<(nat, S), A>,
      pending: seq<(nat, S)>, updated: map<(nat, S), A>)
    requires Progress(k, choose, initial, horizon, visited, rest + [marker], decisions) && marker !in visited
    requires if marker.0 == 0 || k.terminal(marker.1) then updated == decisions
             else choose(marker.0, marker.1).Chosen?
                  && updated == decisions[marker := choose(marker.0, marker.1).action]
    requires forall p :: p in pending <==>
               p in rest || (p.0 == marker.0 - 1 && p.1 in Continuations(k, choose, marker.0, marker.1))
    ensures Progress(k, choose, initial, horizon, visited + {marker}, pending, updated)
    ensures marker in Universe(k, choose, initial, horizon)
  {
    hide Recorded, Expanded;
    ExpandedVisit(k, choose, visited, rest, marker, pending);
    RecordedVisit(k, choose, visited, decisions, marker, updated);
    assert marker in rest + [marker];
    forall p | p in pending
      ensures p in Universe(k, choose, initial, horizon)
    {
      if p !in rest {
        LevelStep(k, choose, initial, horizon, marker.0, marker.1, p.1);
      } else {
        assert p in rest + [marker];
      }
    }
  }

  lemma Finish<S(!new), A(!new), F>(
      k: Kernel<S, A, F>, choose: Chooser<S, A>, initial: seq<(real, S)>, horizon: nat,
      visited: set<(nat, S)>, decisions: map<(nat, S), A>, h: nat, x: S)
    requires Progress(k, choose, initial, horizon, visited, [], decisions)
    ensures (h, x) in decisions <==> Decides(k, choose, initial, horizon, h, x)
    ensures (h, x) in decisions ==> choose(h, x) == Chosen(decisions[(h, x)])
  {
    if h <= horizon {
      VisitedCoversLevel(k, choose, initial, horizon, h, visited);
    }
  }

  /** Lifting succeeds exactly when every reachable active pair has a choice, and then records
      those pairs and no others, each with its chosen action. */
  method LiftPolicy<S(==, !new), A(!new), F>(
      k: Kernel<S, A, F>, choose: Chooser<S, A>, initial: seq<(real, S)>, horizon: nat)
    returns (r: LiftResult<S, A>)
    ensures r.Lifted? <==>
            forall h: nat, x {:trigger Decides(k, choose, initial, horizon, h, x)} |
              Decides(k, choose, initial, horizon, h, x) :: choose(h, x).Chosen?
    ensures r.Lifted? ==>
            forall h: nat, x {:trigger (h, x) in r.decisions} ::
              && ((h, x) in r.decisions <==> Decides(k, choose, initial, horizon, h, x))
              && ((h, x) in r.decisions ==> choose(h, x) == Chosen(r.decisions[(h, x)]))
  {
    hide Continuations, Decides, Level, Progress, Universe;
    var pending := InitialPending(initial, horizon);
    var visited: set<(nat, S)> := {};
    var decisions: map<(nat, S), A> := map[];
    ghost var universe := Universe(k, choose, initial, horizon);
    Start(k, choose, initial, horizon, pending);
    while |pending| > 0
      invariant Progress(k, choose, initial, horizon, visited, pending, decisions)
      decreases |universe - visited|, |pending|
    {
      var rest, marker := pending[..|pending| - 1], pending[|pending| - 1];
      assert pending == rest + [marker];
      pending := rest;
      var remaining, state := marker.0, marker.1;
      if marker in visited {
        Skip(k, choose, initial, horizon, visited, rest, marker, decisions);
        continue;
      }
      ghost var seen, known := visited, decisions;
      visited := visited + {marker};
      assert universe - visited == (universe - seen) - {marker};
      if remaining == 0 || k.terminal(state) {
        InactiveStops(k, choose, remaining, state);
        Visit(k, choose, initial, horizon, seen, rest, marker, known, pending, decisions);
        continue;
      }
      var choice := choose(remaining, state);
      if choice.Refused? {
        Refusal(k, choose, initial, horizon, seen, rest, marker, decisions);
        return Raised;
      }
      decisions := decisions[marker := choice.action];
      pending := PushContinuations(k, choose, remaining, state, choice.action, pending);
      Visit(k, choose, initial, horizon, seen, rest, marker, known, pending, decisions);
    }
    assert pending == [];
    forall h: nat, x
      ensures (h, x) in decisions <==> Decides(k, choose, initial, horizon, h, x)
      ensures (h, x) in decisions ==> choose(h, x) == Chosen(decisions[(h, x)])
    {
      Finish(k, choose, initial, horizon, visited, decisions, h, x);
    }
    r := Lifted(decisions);
  }

  lemma Refusal<S(!new), A(!new), F>(
      k: Kernel<S, A, F>, choose: Chooser<S, A>, initial: seq<(real, S)>, horizon: nat,
      visited: set<(nat, S)>, rest: seq<(nat, S)>, marker: (nat, S), decisions: map<(nat, S), A>)
    requires Progress(k, choose, initial, horizon, visited, rest + [marker], decisions)
    requires marker.0 > 0 && !k.terminal(marker.1)
    ensures Decides(k, choose, initial, horizon, marker.0, marker.1)
  {
    assert marker in rest + [marker];
  }
}
