/** Hard partitions, witness-separating splits and the refinement loop they drive. */
module Refinement {

  /** A total assignment of registered states to cells. */
  type Partition<S(==), C> = map<S, C>

  datatype Predicate<!S, P> = Predicate(id: P, test: S -> bool)

  ghost function CellsOf<S, C>(p: Partition<S, C>): set<C> {
    set x | x in p :: p[x]
  }

  function Side<S(==), C(==)>(p: Partition<S, C>, cell: C, test: S -> bool, branch: bool): set<S> {
    set x | x in p && p[x] == cell && test(x) == branch
  }

  /** Replacing one cell by its two children. */
  function Split<S(==), C(==)>(p: Partition<S, C>, cell: C, test: S -> bool, falseCell: C, trueCell: C): Partition<S, C> {
    map x | x in p :: if p[x] != cell then p[x] else if test(x) then trueCell else falseCell
  }

  /** Both children inhabited, with identifiers distinct from each other and from other cells. */
  ghost predicate EffectiveSplit<S, C>(p: Partition<S, C>, cell: C, test: S -> bool, falseCell: C, trueCell: C) {
    && Side(p, cell, test, false) != {} && Side(p, cell, test, true) != {}
    && falseCell != trueCell
    && falseCell !in CellsOf(p) - {cell} && trueCell !in CellsOf(p) - {cell}
  }

  // ---- What one split does ----------------------------------------------------------------

  ghost predicate Refines<S, C>(q: Partition<S, C>, p: Partition<S, C>) {
    q.Keys == p.Keys && forall x, y | x in p && y in p && q[x] == q[y] :: p[x] == p[y]
  }

  ghost function SameCellPairs<S, C>(p: Partition<S, C>): set<(S, S)> {
    set x, y | x in p && y in p && p[x] == p[y] :: (x, y)
  }

  /** Two states share a cell afterwards exactly if they did before and the predicate does not
      tell them apart inside the split cell. */
  lemma SplitSeparates<S, C>(p: Partition<S, C>, cell: C, test: S -> bool, f: C, t: C, x: S, y: S)
    requires EffectiveSplit(p, cell, test, f, t) && x in p && y in p
    ensures var q := Split(p, cell, test, f, t);
            q[x] == q[y] <==> p[x] == p[y] && (p[x] == cell ==> test(x) == test(y))
  {
    assert p[x] in CellsOf(p) && p[y] in CellsOf(p);
  }

  ghost function StatesOf<S, C>(p: Partition<S, C>, cell: C): set<S> {
    set x | x in p && p[x] == cell
  }

  /** The children hold what their names say, and every other cell keeps its states. */
  lemma ChildrenHold<S, C(!new)>(p: Partition<S, C>, cell: C, test: S -> bool, f: C, t: C)
    requires EffectiveSplit(p, cell, test, f, t)
    ensures var q := Split(p, cell, test, f, t);
            && q.Keys == p.Keys
            && StatesOf(q, f) == (set x | x in StatesOf(p, cell) && !test(x))
            && StatesOf(q, t) == (set x | x in StatesOf(p, cell) && test(x))
            && forall c | c != cell && c != f && c != t :: StatesOf(q, c) == StatesOf(p, c)
  {
    assert forall x | x in p :: p[x] in CellsOf(p);
  }

  /** An effective split strictly refines: it keeps every separation and adds one. */
  lemma SplitStrictlyRefines<S, C>(p: Partition<S, C>, cell: C, test: S -> bool, f: C, t: C)
    requires EffectiveSplit(p, cell, test, f, t)
    ensures var q := Split(p, cell, test, f, t);
            Refines(q, p) && SameCellPairs(q) < SameCellPairs(p)
  {
    var q := Split(p, cell, test, f, t);
    forall x, y | x in p && y in p && q[x] == q[y]
      ensures p[x] == p[y]
    {
      SplitSeparates(p, cell, test, f, t, x, y);
    }
    var x :| x in Side(p, cell, test, false);
    var y :| y in Side(p, cell, test, true);
    SplitSeparates(p, cell, test, f, t, x, y);
    assert (x, y) in SameCellPairs(p) && (x, y) !in SameCellPairs(q);
  }

  /** Exactly one cell is replaced by exactly two. */
  lemma SplitAddsOneCell<S, C>(p: Partition<S, C>, cell: C, test: S -> bool, f: C, t: C)
    requires EffectiveSplit(p, cell, test, f, t)
    ensures |CellsOf(Split(p, cell, test, f, t))| == |CellsOf(p)| + 1
  {
    var q := Split(p, cell, test, f, t);
    var x :| x in Side(p, cell, test, false);
    var y :| y in Side(p, cell, test, true);
    assert q[x] == f && q[y] == t && p[x] == cell;
    var others := CellsOf(p) - {cell};
    forall c | c in others
      ensures c in CellsOf(q)
    {
      var z :| z in p && p[z] == c;
      assert q[z] == c;
    }
    assert CellsOf(q) == others + {f, t};
    assert CellsOf(p) == others + {cell};
    assert |{f, t}| == 2;
  }

  lemma {:induction false} CellsAtMostStates<S, C>(p: Partition<S, C>)
    ensures |CellsOf(p)| <= |p|
    decreases |p|
  {
    if p != map[] {
      var x :| x in p;
      var rest := p - {x};
      assert rest.Keys == p.Keys - {x};
      CellsAtMostStates(rest);
      assert CellsOf(p) == CellsOf(rest) + {p[x]};
    }
  }

  // ---- Runs of accepted splits ------------------------------------------------------------

  datatype SplitStep<!S, C> = SplitStep(cell: C, test: S -> bool, falseCell: C, trueCell: C)

  ghost predicate Accepts<S, C>(p: Partition<S, C>, step: SplitStep<S, C>) {
    EffectiveSplit(p, step.cell, step.test, step.falseCell, step.trueCell)
  }

  function Apply<S(==), C(==)>(p: Partition<S, C>, step: SplitStep<S, C>): Partition<S, C> {
    Split(p, step.cell, step.test, step.falseCell, step.trueCell)
  }

  ghost predicate IsRun<S, C>(p: Partition<S, C>, steps: seq<SplitStep<S, C>>) {
    |steps| == 0 || (Accepts(p, steps[0]) && IsRun(Apply(p, steps[0]), steps[1..]))
  }

  ghost function RunResult<S, C>(p: Partition<S, C>, steps: seq<SplitStep<S, C>>): Partition<S, C> {
    if |steps| == 0 then p else RunResult(Apply(p, steps[0]), steps[1..])
  }

  /** Whatever the kernel, grammar and selection rule, refinement terminates: a run of accepted
      splits is no longer than the number of states minus the number of initial cells, each split
      adds one cell, and the result refines the start. */
  lemma {:induction false} RunsAreBounded<S, C>(p: Partition<S, C>, steps: seq<SplitStep<S, C>>)
    requires IsRun(p, steps)
    ensures |CellsOf(RunResult(p, steps))| == |CellsOf(p)| + |steps|
    ensures |steps| <= |p| - |CellsOf(p)|
    ensures Refines(RunResult(p, steps), p)
    ensures |steps| > 0 ==> SameCellPairs(RunResult(p, steps)) < SameCellPairs(p)
    decreases |steps|
  {
    if |steps| == 0 {
      CellsAtMostStates(p);
    } else {
      var step := steps[0];
      var q := Apply(p, step);
      SplitAddsOneCell(p, step.cell, step.test, step.falseCell, step.trueCell);
      SplitStrictlyRefines(p, step.cell, step.test, step.falseCell, step.trueCell);
      RunsAreBounded(q, steps[1..]);
      assert q.Keys == p.Keys && |q| == |q.Keys| && |p| == |p.Keys|;
    }
  }

  // ---- Attempting a split -----------------------------------------------------------------

  datatype SplitResult<S(==), C> =
    | SplitAccepted(partition: Partition<S, C>, falseCell: C, trueCell: C)
    | DuplicatePredicate
    | DuplicatePartition
    | NoOpSplit
    | UnknownCell
    | IdentifierCollision

  /** The unordered pair of child member sets. */
  function ChildSignature<S(==), C(==)>(p: Partition<S, C>, cell: C, test: S -> bool): set<set<S>> {
    {Side(p, cell, test, false), Side(p, cell, test, true)}
  }

  lemma SidesOf<S, C>(p: Partition<S, C>, cell: C, test: S -> bool)
    ensures Side(p, cell, test, true) == (set x | x in StatesOf(p, cell) && test(x))
    ensures Side(p, cell, test, false) == StatesOf(p, cell) - Side(p, cell, test, true)
  {
  }

  /** Two tests have the same child signature on a cell, and the later is a duplicate, if and only if
      they agree on all its states or differ on all. */
  lemma SameSignatureIff<S, C>(p: Partition<S, C>, cell: C, s: S -> bool, t: S -> bool)
    ensures ChildSignature(p, cell, s) == ChildSignature(p, cell, t) <==>
            (forall x | x in StatesOf(p, cell) :: s(x) == t(x)) || (forall x | x in StatesOf(p, cell) :: s(x) != t(x))
  {
    SidesOf(p, cell, s);
    SidesOf(p, cell, t);
    hide Side;
    var states, inS, inT := StatesOf(p, cell), Side(p, cell, s, true), Side(p, cell, t, true);
    if ChildSignature(p, cell, s) == ChildSignature(p, cell, t) {
      assert inS in ChildSignature(p, cell, t);
      if inS == inT {
        assert forall x | x in states :: x in inS <==> x in inT;
      } else {
        assert inS == states - inT;
        assert forall x | x in states :: x in inS <==> x !in inT;
      }
    }
    if forall x | x in states :: s(x) == t(x) {
      assert inS == inT;
    } else if forall x | x in states :: s(x) != t(x) {
      assert inS == states - inT && inT == states - inS;
    }
  }

  function PathOf<C, P>(paths: map<C, seq<P>>, cell: C): seq<P> {
    if cell in paths then paths[cell] else []
  }

  function EvaluatedAt<S, C>(evaluated: map<C, set<set<set<S>>>>, cell: C): set<set<set<S>>> {
    if cell in evaluated then evaluated[cell] else {}
  }

  /** Every predicate on the path to a cell is constant on that cell. */
  ghost predicate PathsConstant<S, C, P>(grammar: P -> (S -> bool), paths: map<C, seq<P>>, p: Partition<S, C>) {
    forall x, y, id | x in p && y in p && p[x] == p[y] && id in PathOf(paths, p[x]) ::
      grammar(id)(x) == grammar(id)(y)
  }

  class RefinementTracker<S(==), C(==), P(==)> {
    var pathPredicates: map<C, seq<P>>
    var evaluatedChildSignatures: map<C, set<set<set<S>>>>

    constructor ()
      ensures pathPredicates == map[] && evaluatedChildSignatures == map[]
    {
      pathPredicates, evaluatedChildSignatures := map[], map[];
    }

    /** One canonical predicate applied to one cell.  The status is decided in order: predicate
        already on the path, unknown cell, empty child, child partition already evaluated,
        identifier collision, accepted.  Only the last two record the child signature, and only
        acceptance extends the paths. */
    method AttemptSplit(p: Partition<S, C>, cell: C, rule: Predicate<S, P>, childId: (C, P, bool) -> C)
      returns (r: SplitResult<S, C>)
      modifies this
      ensures var path, evaluated := old(PathOf(pathPredicates, cell)), old(EvaluatedAt(evaluatedChildSignatures, cell));
              var f, t := childId(cell, rule.id, false), childId(cell, rule.id, true);
              var inhabited := Side(p, cell, rule.test, false) != {} && Side(p, cell, rule.test, true) != {};
              var signature := ChildSignature(p, cell, rule.test);
              && (r == DuplicatePredicate <==> rule.id in path)
              && (r == UnknownCell <==> rule.id !in path && cell !in CellsOf(p))
              && (r == NoOpSplit <==> rule.id !in path && cell in CellsOf(p) && !inhabited)
              && (r == DuplicatePartition <==> rule.id !in path && inhabited && signature in evaluated)
              && (r.SplitAccepted? <==>
                    rule.id !in path && signature !in evaluated && EffectiveSplit(p, cell, rule.test, f, t))
              && (r.SplitAccepted? ==>
                    r.falseCell == f && r.trueCell == t && r.partition == Split(p, cell, rule.test, f, t))
              && evaluatedChildSignatures == (if r.SplitAccepted? || r.IdentifierCollision?
                                              then old(evaluatedChildSignatures)[cell := evaluated + {signature}]
                                              else old(evaluatedChildSignatures))
              && pathPredicates == (if r.SplitAccepted?
                                    then old(pathPredicates)[f := path + [rule.id]][t := path + [rule.id]]
                                    else old(pathPredicates))
    {
      var path := PathOf(pathPredicates, cell);
      if rule.id in path {
        return DuplicatePredicate;
      }
      if !(exists x :: x in p && p[x] == cell) {
        assert cell !in CellsOf(p);
        return UnknownCell;
      }
      assert cell in CellsOf(p);
      var trueStates, falseStates := Side(p, cell, rule.test, true), Side(p, cell, rule.test, false);
      if trueStates == {} || falseStates == {} {
        return NoOpSplit;
      }
      InhabitedCell(p, cell, rule.test);
      var signature := ChildSignature(p, cell, rule.test);
      var evaluated := EvaluatedAt(evaluatedChildSignatures, cell);
      if signature in evaluated {
        return DuplicatePartition;
      }
      evaluatedChildSignatures := evaluatedChildSignatures[cell := evaluated + {signature}];
      var f, t := childId(cell, rule.id, false), childId(cell, rule.id, true);
      var unaffected := (set x | x in p :: p[x]) - {cell};
      if f == t || f in unaffected || t in unaffected {
        return IdentifierCollision;
      }
      pathPredicates := pathPredicates[f := path + [rule.id]][t := path + [rule.id]];
      return SplitAccepted(Split(p, cell, rule.test, f, t), f, t);
    }
  }

  lemma InhabitedCell<S, C>(p: Partition<S, C>, cell: C, test: S -> bool)
    requires Side(p, cell, test, false) != {}
    ensures cell in CellsOf(p)
  {
    var x :| x in Side(p, cell, test, false);
  }

  /** Acceptance keeps path predicates constant on their cells. */
  lemma AcceptanceKeepsPathsConstant<S, C, P(!new)>(
      grammar: P -> (S -> bool), paths: map<C, seq<P>>, p: Partition<S, C>, cell: C, id: P, f: C, t: C)
    requires PathsConstant(grammar, paths, p) && EffectiveSplit(p, cell, grammar(id), f, t)
    ensures var path := PathOf(paths, cell) + [id];
            PathsConstant(grammar, paths[f := path][t := path], Split(p, cell, grammar(id), f, t))
  {
    var path := PathOf(paths, cell) + [id];
    var paths', q := paths[f := path][t := path], Split(p, cell, grammar(id), f, t);
    forall x, y, other | x in q && y in q && q[x] == q[y] && other in PathOf(paths', q[x])
      ensures grammar(other)(x) == grammar(other)(y)
    {
      SplitSeparates(p, cell, grammar(id), f, t, x, y);
      assert p[x] in CellsOf(p);
      if p[x] == cell {
        assert PathOf(paths', q[x]) == path;
      } else {
        assert PathOf(paths', q[x]) == PathOf(paths, p[x]);
      }
    }
  }

  /** The duplicate-predicate rejection never hides an effective split: on such a cell the
      predicate would have produced an empty child anyway. */
  lemma DuplicatePredicateIsNoOp<S, C, P>(
      grammar: P -> (S -> bool), paths: map<C, seq<P>>, p: Partition<S, C>, cell: C, id: P)
    requires PathsConstant(grammar, paths, p) && id in PathOf(paths, cell)
    ensures Side(p, cell, grammar(id), false) == {} || Side(p, cell, grammar(id), true) == {}
  {
    if Side(p, cell, grammar(id), false) != {} {
      var x :| x in Side(p, cell, grammar(id), false);
      forall y | y in p && p[y] == cell
        ensures !grammar(id)(y)
      {
      }
    }
  }

  // ---- Grouping witnesses into split candidates -------------------------------------------

  datatype Witness<S, C, L> = Witness(id: string, cell: C, remaining: nat, action: L, left: S, right: S)

  datatype CandidateKey<C, L, P> = CandidateKey(cell: C, remaining: nat, action: L, rule: P)

  function KeyOf<S, C, L, P>(w: Witness<S, C, L>, id: P): CandidateKey<C, L, P> {
    CandidateKey(w.cell, w.remaining, w.action, id)
  }

  /** Witnesses support one candidate only within one cell, horizon and action. */
  lemma SameCandidateIff<S, C, L, P>(w: Witness<S, C, L>, v: Witness<S, C, L>, id: P, other: P)
    ensures KeyOf(w, id) == KeyOf(v, other) <==>
            w.cell == v.cell && w.remaining == v.remaining && w.action == v.action && id == other
  {
  }

  predicate Separates<S, C, L, P>(q: Predicate<S, P>, w: Witness<S, C, L>) {
    q.test(w.left) != q.test(w.right)
  }

  /** Witness `a` and predicate `b` are one of the pairs visited before `(i, j)`, the predicate
      separates the witness, and together they contribute to the candidate `key`. */
  ghost predicate Contributes<S, C, L, P>(
      witnesses: seq<Witness<S, C, L>>, rules: seq<Predicate<S, P>>, i: nat, j: nat,
      key: CandidateKey<C, L, P>, a: nat, b: nat)
  {
    && a < |witnesses| && b < |rules| && (a < i || (a == i && b < j))
    && Separates(rules[b], witnesses[a]) && KeyOf(witnesses[a], rules[b].id) == key
  }

  ghost predicate Supports<S, C, L, P>(
      witnesses: seq<Witness<S, C, L>>, rules: seq<Predicate<S, P>>, i: nat, j: nat,
      key: CandidateKey<C, L, P>, id: string)
  {
    exists a: nat, b: nat :: Contributes(witnesses, rules, i, j, key, a, b) && witnesses[a].id == id
  }

  /** The support of every candidate is exactly the set of witnesses that contribute to it. */
  ghost predicate Grouped<S, C(!new), L(!new), P(!new)>(
      grouped: map<CandidateKey<C, L, P>, set<string>>,
      witnesses: seq<Witness<S, C, L>>, rules: seq<Predicate<S, P>>, i: nat, j: nat)
  {
    forall key, id {:trigger Supports(witnesses, rules, i, j, key, id)} ::
      (key in grouped && id in grouped[key]) <==> Supports(witnesses, rules, i, j, key, id)
  }

  lemma GroupedStep<S, C(!new), L(!new), P(!new)>(
      grouped: map<CandidateKey<C, L, P>, set<string>>, updated: map<CandidateKey<C, L, P>, set<string>>,
      witnesses: seq<Witness<S, C, L>>, rules: seq<Predicate<S, P>>, i: nat, j: nat)
    requires i < |witnesses| && j < |rules| && Grouped(grouped, witnesses, rules, i, j)
    requires var key := KeyOf(witnesses[i], rules[j].id);
             if Separates(rules[j], witnesses[i])
             then updated == grouped[key := (if key in grouped then grouped[key] else {}) + {witnesses[i].id}]
             else updated == grouped
    ensures Grouped(updated, witnesses, rules, i, j + 1)
  {
    var next := j + 1;
    forall key, id
      ensures (key in updated && id in updated[key]) <==> Supports(witnesses, rules, i, next, key, id)
    {
      assert (key in grouped && id in grouped[key]) <==> Supports(witnesses, rules, i, j, key, id);
      if a: nat, b: nat :| Contributes(witnesses, rules, i, j, key, a, b) && witnesses[a].id == id {
        assert Contributes(witnesses, rules, i, next, key, a, b);
      }
      if Supports(witnesses, rules, i, next, key, id) {
        var a: nat, b: nat :| Contributes(witnesses, rules, i, next, key, a, b) && witnesses[a].id == id;
        if a != i || b != j {
          assert Contributes(witnesses, rules, i, j, key, a, b);
        }
      }
      if Separates(rules[j], witnesses[i]) && key == KeyOf(witnesses[i], rules[j].id) && id == witnesses[i].id {
        assert Contributes(witnesses, rules, i, next, key, i, j);
      }
    }
  }

  lemma GroupedRow<S, C(!new), L(!new), P(!new)>(
      grouped: map<CandidateKey<C, L, P>, set<string>>,
      witnesses: seq<Witness<S, C, L>>, rules: seq<Predicate<S, P>>, i: nat)
    requires Grouped(grouped, witnesses, rules, i, |rules|)
    ensures Grouped(grouped, witnesses, rules, i + 1, 0)
  {
    var next := i + 1;
    forall key, id
      ensures (key in grouped && id in grouped[key]) <==> Supports(witnesses, rules, next, 0, key, id)
    {
      assert (key in grouped && id in grouped[key]) <==> Supports(witnesses, rules, i, |rules|, key, id);
      if Supports(witnesses, rules, i, |rules|, key, id) {
        var a: nat, b: nat :| Contributes(witnesses, rules, i, |rules|, key, a, b) && witnesses[a].id == id;
        assert Contributes(witnesses, rules, next, 0, key, a, b);
      }
      if Supports(witnesses, rules, next, 0, key, id) {
        var a: nat, b: nat :| Contributes(witnesses, rules, next, 0, key, a, b) && witnesses[a].id == id;
        assert Contributes(witnesses, rules, i, |rules|, key, a, b);
      }
    }
  }

  /** The cross product of witnesses and grammar predicates, grouped by candidate. */
  method GroupCandidates<S, C(==, !new), L(==, !new), P(==, !new)>(
      witnesses: seq<Witness<S, C, L>>, rules: seq<Predicate<S, P>>)
    returns (grouped: map<CandidateKey<C, L, P>, set<string>>)
    ensures Grouped(grouped, witnesses, rules, |witnesses|, 0)
  {
    grouped := map[];
    for i := 0 to |witnesses|
      invariant Grouped(grouped, witnesses, rules, i, 0)
    {
      for j := 0 to |rules|
        invariant Grouped(grouped, witnesses, rules, i, j)
      {
        ghost var before := grouped;
        if Separates(rules[j], witnesses[i]) {
          var key := KeyOf(witnesses[i], rules[j].id);
          var support := if key in grouped then grouped[key] else {};
          grouped := grouped[key := support + {witnesses[i].id}];
        }
        GroupedStep(before, grouped, witnesses, rules, i, j);
      }
      GroupedRow(grouped, witnesses, rules, i);
    }
  }

  /** Accepting a candidate separates both states of every witness that supports it. */
  lemma AcceptedSplitSeparatesSupport<S, C(!new), L(!new), P(!new)>(
      grouped: map<CandidateKey<C, L, P>, set<string>>,
      witnesses: seq<Witness<S, C, L>>, rules: seq<Predicate<S, P>>, grammar: P -> (S -> bool),
      p: Partition<S, C>, key: CandidateKey<C, L, P>, id: string, f: C, t: C)
    returns (w: Witness<S, C, L>)
    requires Grouped(grouped, witnesses, rules, |witnesses|, 0)
    requires forall b | 0 <= b < |rules| :: grammar(rules[b].id) == rules[b].test
    requires forall a | 0 <= a < |witnesses| ::
               && witnesses[a].left in p && witnesses[a].right in p
               && p[witnesses[a].left] == p[witnesses[a].right] == witnesses[a].cell
    requires key in grouped && id in grouped[key]
    requires EffectiveSplit(p, key.cell, grammar(key.rule), f, t)
    ensures w in witnesses && w.id == id && w.cell == key.cell
    ensures var q := Split(p, key.cell, grammar(key.rule), f, t);
            q[w.left] != q[w.right]
  {
    assert Supports(witnesses, rules, |witnesses|, 0, key, id);
    var a: nat, b: nat :| Contributes(witnesses, rules, |witnesses|, 0, key, a, b) && witnesses[a].id == id;
    w := witnesses[a];
    SplitSeparates(p, key.cell, grammar(key.rule), f, t, w.left, w.right);
  }
}
