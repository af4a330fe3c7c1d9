/** An accepted split of one cell that multiplies the witnesses of another: the refinement loop
    terminates although the witness count itself can grow. */
module SplitWidening {
  import opened CellModels
  import opened Counterexamples
  import opened Outcomes
  import opened Realizations
  import opened Refinement
  import opened Symmetry

  /** States 0, 1 and 2 lead to state 10, to state 11 and to either with equal chances; those two
      end with different rewards. */
  function Law(x: int): Outcomes<int, real> {
    if x == 0 then [Outcome(1.0, Atom(10, 0.0, false, false))]
    else if x == 1 then [Outcome(1.0, Atom(11, 0.0, false, false))]
    else if x == 2 then [Outcome(0.5, Atom(10, 0.0, false, false)), Outcome(0.5, Atom(11, 0.0, false, false))]
    else [Outcome(1.0, Atom(20, if x == 10 then 1.0 else 0.0, false, true))]
  }

  const STATES: set<int> := {0, 1, 2, 10, 11}

  const BEFORE: Partition<int, int> := map[0 := 1, 1 := 1, 2 := 1, 10 := 2, 11 := 2]

  function IsTen(): int -> bool {
    (x: int) => x == 10
  }

  const AFTER: Partition<int, int> := Split(BEFORE, 2, IsTen(), 3, 4)

  function CellIn(p: Partition<int, int>): int -> int {
    (x: int) => if x in p then p[x] else 0
  }

  function Fork(p: Partition<int, int>): Model<int, int, real, int, int> {
    Model(Kernel((x: int) => {0}, (x, a) => Law(x), (x: int) => x == 20), STATES, CellIn(p),
          (x: int) => {0}, (x, l) => 0, (q: real) => q)
  }

  function Only(): SemanticPolicy<int, int> {
    (h: nat, c: int) => 0
  }

  /** The witnesses of the only policy, each pair once. */
  ghost function Witnesses(p: Partition<int, int>): set<(int, int)> {
    set x, y | x in STATES && y in STATES && x < y && IsWitness(Fork(p), Only(), 1, CellIn(p)(x), x, y) :: (x, y)
  }

  lemma Realized(p: Partition<int, int>, x: int, d: int)
    requires x in STATES
    ensures var r, f := Realize(Fork(p), x, 0), CellIn(p);
            && r.reward == (if x == 10 then 1.0 else 0.0) && r.failure == 0.0
            && Get(r.successors, d) ==
               (if x == 0 then (if f(10) == d then 1.0 else 0.0)
                else if x == 1 then (if f(11) == d then 1.0 else 0.0)
                else if x == 2 then (if f(10) == d then 0.5 else 0.0) + (if f(11) == d then 0.5 else 0.0)
                else 0.0)
  {
    hide Expect;
    var m := Fork(p);
    SuccessorMass(m, x, 0, d);
    if x == 2 {
      ExpectTwo(Law(2)[0], Law(2)[1], Enters(m, d));
      ExpectTwo(Law(2)[0], Law(2)[1], WeightOf(m.weight));
      ExpectTwo(Law(2)[0], Law(2)[1], FailureOf());
    } else {
      ExpectOne(Law(x)[0], Enters(m, d));
      ExpectOne(Law(x)[0], WeightOf(m.weight));
      ExpectOne(Law(x)[0], FailureOf());
    }
  }

  /** Two states of one cell are a witness exactly when they behave differently. */
  lemma WitnessIff(p: Partition<int, int>, x: int, y: int)
    requires x in STATES && y in STATES
    ensures IsWitness(Fork(p), Only(), 1, CellIn(p)(x), x, y) <==>
            CellIn(p)(x) == CellIn(p)(y) && !SameBehaviour(Realize(Fork(p), x, 0), Realize(Fork(p), y, 0))
  {
    hide Realize, Distance, SameBehaviour;
    NoGapIffSameBehaviour(Realize(Fork(p), x, 0), Realize(Fork(p), y, 0));
  }

  lemma BeforeSplit(x: int, y: int)
    requires x in STATES && y in STATES && x < y
    ensures IsWitness(Fork(BEFORE), Only(), 1, CellIn(BEFORE)(x), x, y) <==> (x == 10 && y == 11)
  {
    hide Realize, IsWitness;
    WitnessIff(BEFORE, x, y);
    forall d
      ensures x <= 2 && y <= 2 ==> Get(Realize(Fork(BEFORE), x, 0).successors, d) == Get(Realize(Fork(BEFORE), y, 0).successors, d)
    {
      Realized(BEFORE, x, d);
      Realized(BEFORE, y, d);
    }
    Realized(BEFORE, x, 0);
    Realized(BEFORE, y, 0);
  }

  lemma AfterSplit(x: int, y: int)
    requires x in STATES && y in STATES && x < y
    ensures IsWitness(Fork(AFTER), Only(), 1, CellIn(AFTER)(x), x, y) <==> y <= 2
  {
    hide Realize, IsWitness;
    assert CellIn(AFTER)(0) == CellIn(AFTER)(1) == CellIn(AFTER)(2) == 1 && CellIn(AFTER)(10) == 4 && CellIn(AFTER)(11) == 3;
    WitnessIff(AFTER, x, y);
    Realized(AFTER, x, 4);
    Realized(AFTER, y, 4);
  }

  lemma SplitIsEffective()
    ensures EffectiveSplit(BEFORE, 2, IsTen(), 3, 4) && AFTER[10] != AFTER[11]
  {
    assert 11 in Side(BEFORE, 2, IsTen(), false) && 10 in Side(BEFORE, 2, IsTen(), true);
    assert forall x | x in BEFORE :: BEFORE[x] == 1 || BEFORE[x] == 2;
  }

  /** The accepted split separates the one witness it has, and afterwards there are three. */
  lemma SplitCanAddWitnesses()
    ensures EffectiveSplit(BEFORE, 2, IsTen(), 3, 4)
    ensures Witnesses(BEFORE) == {(10, 11)} && AFTER[10] != AFTER[11]
    ensures Witnesses(AFTER) == {(0, 1), (0, 2), (1, 2)}
  {
    SplitIsEffective();
    hide IsWitness, EffectiveSplit, Split, Fork, CellIn;
    forall x, y | x in STATES && y in STATES && x < y
      ensures IsWitness(Fork(BEFORE), Only(), 1, CellIn(BEFORE)(x), x, y) <==> (x == 10 && y == 11)
      ensures IsWitness(Fork(AFTER), Only(), 1, CellIn(AFTER)(x), x, y) <==> y <= 2
    {
      BeforeSplit(x, y);
      AfterSplit(x, y);
    }
  }
}
