/** The 2x2 game with at most three tiles, which the two registered query families of that size
    play: one merge is best in every respect, so ground and quotient have one-point frontiers. */
module SmallBoards {
  import opened D4
  import opened G2048
  import opened Outcomes
  import opened Symmetry

  // ---- Goodness of a step -----------------------------------------------------------------

  /** How good a successor is. */
  type Goodness = Game -> real

  function Worth(good: Goodness): Atom<Game, real> -> real {
    (a: Atom<Game, real>) => good(a.next)
  }

  ghost function StepWorth(r: Rules, x: Game, a: Action, good: Goodness): real {
    Expect(Law(r, x, a), Worth(good))
  }

  /** The same for all images of a board, and never below that of a failed board. */
  ghost predicate Fair(n: nat, good: Goodness) {
    && (forall y: Game, g: Element {:trigger MoveGame(y, n, g)} :: good(MoveGame(y, n, g)) == good(y))
    && (forall y: Game, z: Game | y.failed :: good(y) <= good(z))
  }

  lemma StepWorthMoves(r: Rules, x: Game, a: Action, g: Element, good: Goodness)
    requires !x.failed && a in Merges(x.board, r.size) && Fair(r.size, good)
    ensures StepWorth(r, MoveGame(x, r.size, g), MoveAction(a, r.size, g), good) == StepWorth(r, x, a, good)
  {
    hide Law, Merges, MoveBoard, MoveAction, SameMass;
    var os, t := Law(r, x, a), GameMap(r.size, g);
    LawMoves(r, x, a, g);
    SameMassSameExpect(Mapped(os, t), Law(r, MoveGame(x, r.size, g), MoveAction(a, r.size, g)), Worth(good));
    ExpectMapped(os, t, Worth(good));
    forall i | 0 <= i < |os|
      ensures Worth(good)(os[i].atom) == Worth(good)(MapAtom(os[i].atom, t))
    {
      assert t(os[i].atom.next) == MoveGame(os[i].atom.next, r.size, g);
    }
    ExpectCongruent(os, Worth(good), b => Worth(good)(MapAtom(b, t)));
  }

  // ---- Expectations over spawns -----------------------------------------------------------

  ghost function SpawnSum(spawn: seq<(nat, real)>, f: nat -> real): real {
    if |spawn| == 0 then 0.0 else spawn[0].1 * f(spawn[0].0) + SpawnSum(spawn[1..], f)
  }

  ghost predicate PositiveSpawn(spawn: seq<(nat, real)>) {
    forall i | 0 <= i < |spawn| :: spawn[i].0 > 0 && spawn[i].1 > 0.0
  }

  lemma {:induction false} SpawnSumMonotone(spawn: seq<(nat, real)>, f: nat -> real, g: nat -> real)
    requires PositiveSpawn(spawn) && forall s | s > 0 :: f(s) <= g(s)
    ensures SpawnSum(spawn, f) <= SpawnSum(spawn, g)
  {
    if |spawn| > 0 {
      ScaleMonotone(spawn[0].1, f(spawn[0].0), g(spawn[0].0));
      SpawnSumMonotone(spawn[1..], f, g);
    }
  }

  lemma {:induction false} SpawnSumMean(spawn: seq<(nat, real)>, f: nat -> real, g: nat -> real, h: nat -> real)
    requires forall s | s in Ranks(spawn) :: h(s) == 0.5 * f(s) + 0.5 * g(s)
    ensures SpawnSum(spawn, h) == 0.5 * SpawnSum(spawn, f) + 0.5 * SpawnSum(spawn, g)
  {
    if |spawn| > 0 {
      assert spawn[0].0 in Ranks(spawn) && Ranks(spawn[1..]) <= Ranks(spawn);
      SpawnSumMean(spawn[1..], f, g, h);
      MeanScales(spawn[0].1, f(spawn[0].0), g(spawn[0].0));
    }
  }

  ghost function Ranks(spawn: seq<(nat, real)>): set<nat> {
    set i | 0 <= i < |spawn| :: spawn[i].0
  }

  lemma MeanScales(p: real, x: real, y: real)
    ensures p * (0.5 * x + 0.5 * y) == 0.5 * (p * x) + 0.5 * (p * y)
  {
  }

  lemma {:induction false} ExpectConcat(xs: Outcomes<Game, real>, ys: Outcomes<Game, real>, f: Atom<Game, real> -> real)
    ensures Expect(xs + ys, f) == Expect(xs, f) + Expect(ys, f)
  {
    if |xs| == 0 {
      assert xs + ys == ys;
    } else {
      ExpectConcat(xs[1..], ys, f);
      assert (xs + ys)[1..] == xs[1..] + ys;
    }
  }

  lemma {:induction false} ScaledExpect(
      os: Outcomes<Game, real>, spawn: seq<(nat, real)>, share: real, f: Atom<Game, real> -> real, g: nat -> real)
    requires |os| == |spawn|
    requires forall i | 0 <= i < |os| :: os[i].probability == share * spawn[i].1 && f(os[i].atom) == g(spawn[i].0)
    ensures Expect(os, f) == share * SpawnSum(spawn, g)
  {
    if |os| > 0 {
      assert forall i | 0 <= i < |os| - 1 :: os[1..][i] == os[i + 1] && spawn[1..][i] == spawn[i + 1];
      ScaledExpect(os[1..], spawn[1..], share, f, g);
      Associate(share, spawn[0].1, g(spawn[0].0), SpawnSum(spawn[1..], g));
    }
  }

  lemma Associate(p: real, q: real, x: real, y: real)
    ensures p * q * x + p * y == p * (q * x + y)
  {
  }

  /** The board as the kernel leaves it: failed when no merge is left. */
  function Settled(r: Rules, board: Board): Game {
    Game(board, Merges(board, r.size) == {})
  }

  function AfterSpawn(r: Rules, board: Board, cell: nat, good: Goodness): nat -> real
    requires cell < |board|
  {
    (s: nat) => good(Settled(r, board[cell := s]))
  }

  lemma BlockWorth(r: Rules, board: Board, cell: nat, share: real, reward: real, good: Goodness)
    requires cell < |board|
    ensures Expect(Block(r, board, cell, share, reward), Worth(good)) == share * SpawnSum(r.spawn, AfterSpawn(r, board, cell, good))
  {
    hide Merges;
    var os := Block(r, board, cell, share, reward);
    forall i | 0 <= i < |os|
      ensures Worth(good)(os[i].atom) == AfterSpawn(r, board, cell, good)(r.spawn[i].0)
    {
      var rank := r.spawn[i].0;
      assert os[i].atom == SpawnAtom(r, board, cell, rank, reward);
      assert SpawnAtom(r, board, cell, rank, reward).next == Settled(r, board[cell := rank]);
      assert AfterSpawn(r, board, cell, good)(rank) == good(Settled(r, board[cell := rank]));
    }
    ScaledExpect(os, r.spawn, share, Worth(good), AfterSpawn(r, board, cell, good));
  }

  /** With two empty cells after the merge, a step is worth the mean over the two. */
  lemma TwoCellWorth(r: Rules, x: Game, a: Action, after: Board, p: nat, q: nat, good: Goodness)
    requires !x.failed && a in Merges(x.board, r.size) && a.second < |x.board|
    requires after == AfterMerge(r, x.board, a) && EmptyCells(after) == [p, q]
    ensures p < |after| && q < |after|
    ensures StepWorth(r, x, a, good)
         == 0.5 * SpawnSum(r.spawn, AfterSpawn(r, after, p, good)) + 0.5 * SpawnSum(r.spawn, AfterSpawn(r, after, q, good))
  {
    hide Merges, Block, AfterMerge, EmptyCells, MergeReward, SpawnSum;
    EmptyInBoard(after);
    assert InBoard(after, [p, q]);
    assert [p, q][0] < |after| && [p, q][1] < |after|;
    var reward := MergeReward(x.board[a.first], r.cap);
    BlockWorth(r, after, p, 0.5, reward, good);
    BlockWorth(r, after, q, 0.5, reward, good);
    var first, second := Block(r, after, p, 0.5, reward), Block(r, after, q, 0.5, reward);
    assert [p, q][..1] == [p] && [p][..0] == [];
    assert Blocks(r, after, [p], 0.5, reward) == [] + first == first;
    assert Blocks(r, after, [p, q], 0.5, reward) == first + second;
    ExpectConcat(first, second, Worth(good));
  }

  // ---- The square -------------------------------------------------------------------------

  const QUARTER: Element := Transform(false, 1)
  const TRANSPOSE: Element := Transform(true, 3)

  lemma SquareCell(row: nat, column: nat, g: Element)
    requires row < 2 && column < 2
    ensures var p := MovePoint(Point(row, column), 2, g); MoveCell(2 * row + column, 2, g) == 2 * p.row + p.column
  {
    hide MovePoint;
    var c := 2 * row + column;
    assert c / 2 == row && c % 2 == column;
    assert c < 2 * 2;
  }

  lemma Corner(g: Element)
    ensures MoveCell(0, 2, g) == var p := MovePoint(Point(0, 0), 2, g); 2 * p.row + p.column
    ensures MoveCell(1, 2, g) == var p := MovePoint(Point(0, 1), 2, g); 2 * p.row + p.column
    ensures MoveCell(2, 2, g) == var p := MovePoint(Point(1, 0), 2, g); 2 * p.row + p.column
    ensures MoveCell(3, 2, g) == var p := MovePoint(Point(1, 1), 2, g); 2 * p.row + p.column
  {
    hide MoveCell, MovePoint;
    SquareCell(0, 0, g);
    SquareCell(0, 1, g);
    SquareCell(1, 0, g);
    SquareCell(1, 1, g);
  }

  lemma QuarterCells()
    ensures MoveCell(0, 2, QUARTER) == 1 && MoveCell(1, 2, QUARTER) == 3
    ensures MoveCell(2, 2, QUARTER) == 0 && MoveCell(3, 2, QUARTER) == 2
  {
    hide MoveCell;
    Corner(QUARTER);
  }

  lemma TransposePoint(row: nat, column: nat)
    ensures MovePoint(Point(row, column), 2, TRANSPOSE) == Point(column, row)
  {
  }

  lemma TransposeCells()
    ensures MoveCell(0, 2, TRANSPOSE) == 0 && MoveCell(1, 2, TRANSPOSE) == 2
    ensures MoveCell(2, 2, TRANSPOSE) == 1 && MoveCell(3, 2, TRANSPOSE) == 3
  {
    hide MoveCell, MovePoint;
    Corner(TRANSPOSE);
    TransposePoint(0, 0);
    TransposePoint(0, 1);
    TransposePoint(1, 0);
    TransposePoint(1, 1);
  }

  lemma QuarterBoard(b: Board)
    requires |b| == 4
    ensures MoveBoard(b, 2, QUARTER) == [b[2], b[0], b[3], b[1]]
  {
    hide MoveCell, MoveBoard;
    QuarterCells();
    MoveBoardAt(b, 2, QUARTER, 0);
    MoveBoardAt(b, 2, QUARTER, 1);
    MoveBoardAt(b, 2, QUARTER, 2);
    MoveBoardAt(b, 2, QUARTER, 3);
  }

  lemma TransposeBoard(b: Board)
    requires |b| == 4
    ensures MoveBoard(b, 2, TRANSPOSE) == [b[0], b[2], b[1], b[3]]
  {
    hide MoveCell, MoveBoard;
    TransposeCells();
    MoveBoardAt(b, 2, TRANSPOSE, 0);
    MoveBoardAt(b, 2, TRANSPOSE, 1);
    MoveBoardAt(b, 2, TRANSPOSE, 2);
    MoveBoardAt(b, 2, TRANSPOSE, 3);
  }

  /** The cells that touch on the square. */
  predicate Touch(c: nat, d: nat) {
    (c == 0 && (d == 1 || d == 2)) || (c == 1 && (d == 0 || d == 3)) || (c == 2 && (d == 0 || d == 3)) || (c == 3 && (d == 1 || d == 2))
  }

  lemma TouchIsAdjacent(c: nat, d: nat)
    requires c < 4 && d < 4
    ensures Adjacent(c, d, 2) <==> Touch(c, d)
  {
  }

  lemma SquareMerges(b: Board, a: Action)
    ensures a in Merges(b, 2) <==>
            |b| == 4 && a.second < 4 && Touch(a.first, a.second) && b[a.first] != 0 && b[a.first] == b[a.second]
  {
    hide Merges, Adjacent;
    MergesAre(b, 2, a);
    if a.second < 4 {
      TouchIsAdjacent(a.first, a.second);
    }
  }

  lemma NoMerges(b: Board)
    requires |b| == 4
    requires forall c, d | 0 <= c < d < 4 && Touch(c, d) :: b[c] == 0 || b[c] != b[d]
    ensures Merges(b, 2) == {}
  {
    hide Merges;
    if a :| a in Merges(b, 2) {
      SquareMerges(b, a);
    }
  }

  // ---- The value of what is left ----------------------------------------------------------

  ghost function LeftWorth(r: Rules, b: Board, good: Goodness): real {
    good(Settled(r, b))
  }

  lemma LeftMoves(r: Rules, b: Board, good: Goodness)
    requires r.size == 2 && |b| == 4 && Fair(2, good)
    ensures LeftWorth(r, [b[2], b[0], b[3], b[1]], good) == LeftWorth(r, b, good)
    ensures LeftWorth(r, [b[0], b[2], b[1], b[3]], good) == LeftWorth(r, b, good)
  {
    hide Merges, MoveBoard, MoveAction;
    QuarterBoard(b);
    TransposeBoard(b);
    MergesEquivariant(b, 2, QUARTER);
    MergesEquivariant(b, 2, TRANSPOSE);
    assert MoveGame(Settled(r, b), 2, QUARTER) == Settled(r, [b[2], b[0], b[3], b[1]]);
    assert MoveGame(Settled(r, b), 2, TRANSPOSE) == Settled(r, [b[0], b[2], b[1], b[3]]);
  }

  lemma LeftReflects(r: Rules, b: Board, good: Goodness)
    requires r.size == 2 && |b| == 4 && Fair(2, good)
    ensures LeftWorth(r, [b[2], b[3], b[0], b[1]], good) == LeftWorth(r, b, good)
    ensures LeftWorth(r, [b[3], b[1], b[2], b[0]], good) == LeftWorth(r, b, good)
  {
    hide LeftWorth, Fair;
    var q := [b[2], b[0], b[3], b[1]];
    LeftMoves(r, b, good);
    LeftMoves(r, q, good);
    var half := [q[2], q[0], q[3], q[1]];
    LeftMoves(r, half, good);
  }

  lemma DeadIsWorst(r: Rules, b: Board, c: Board, good: Goodness)
    requires r.size == 2 && |b| == 4 && Fair(2, good)
    requires forall i, j | 0 <= i < j < 4 && Touch(i, j) :: b[i] == 0 || b[i] != b[j]
    ensures LeftWorth(r, b, good) <= LeftWorth(r, c, good)
  {
    hide Merges;
    NoMerges(b);
  }

  // ---- The best merge ---------------------------------------------------------------------

  /** A merge that no other legal merge beats, whatever fair goodness its successors have. */
  ghost predicate Unsurpassed(r: Rules, x: Game, a: Action) {
    && !x.failed && a in Merges(x.board, r.size)
    && forall good: Goodness, b {:trigger StepWorth(r, x, b, good)} | Fair(r.size, good) && b in Merges(x.board, r.size) ::
         StepWorth(r, x, b, good) <= StepWorth(r, x, a, good)
  }

  lemma BestMoves(r: Rules, x: Game, g: Element, a: Action)
    requires Unsurpassed(r, MoveGame(x, r.size, g), a)
    ensures Unsurpassed(r, x, MoveAction(a, r.size, Inverse(g)))
  {
    hide Merges, MoveBoard, MoveAction, StepWorth, Fair;
    var n := r.size;
    var back := MoveAction(a, n, Inverse(g));
    MoveActionInverse(a, n, g);
    LegalMoves(x.board, n, back, g);
    forall good: Goodness, b | Fair(n, good) && b in Merges(x.board, n)
      ensures StepWorth(r, x, b, good) <= StepWorth(r, x, back, good)
    {
      LegalMoves(x.board, n, b, g);
      StepWorthMoves(r, x, b, g, good);
      StepWorthMoves(r, x, back, g, good);
    }
  }

  /** Two equal tiles side by side on top of one tile: the two ways to merge them. */
  lemma CornerWorth(r: Rules, x: Game, y: nat, z: nat, good: Goodness)
    requires r.size == 2 && !x.failed && x.board == [y, y, z, 0] && y > 0 && z > 0 && r.cap > 0 && Fair(2, good)
    ensures var up := Promoted(y, r.cap);
            && up > 0 && Merge(0, 1, 0) in Merges(x.board, 2) && Merge(0, 1, 1) in Merges(x.board, 2)
            && StepWorth(r, x, Merge(0, 1, 0), good)
               == 0.5 * SpawnSum(r.spawn, (s: nat) => LeftWorth(r, [up, s, z, 0], good))
                + 0.5 * SpawnSum(r.spawn, (s: nat) => LeftWorth(r, [up, 0, z, s], good))
            && StepWorth(r, x, Merge(0, 1, 1), good) == SpawnSum(r.spawn, (s: nat) => LeftWorth(r, [s, up, z, 0], good))
  {
    hide Merges, StepWorth, SpawnSum, LeftWorth, Fair, EmptyCells;
    var up := Promoted(y, r.cap);
    var keep, leave: Action := Merge(0, 1, 0), Merge(0, 1, 1);
    SquareMerges(x.board, keep);
    SquareMerges(x.board, leave);
    EmptyOfKept(up, z);
    EmptyOfLeft(up, z);
    TwoCellWorth(r, x, keep, [up, 0, z, 0], 1, 3, good);
    TwoCellWorth(r, x, leave, [0, up, z, 0], 0, 3, good);
    forall s: nat
      ensures [up, 0, z, 0][1 := s] == [up, s, z, 0] && [up, 0, z, 0][3 := s] == [up, 0, z, s]
      ensures [0, up, z, 0][0 := s] == [s, up, z, 0] && [0, up, z, 0][3 := s] == [0, up, z, s]
    {
    }
    SpawnsAre(r, [up, 0, z, 0], 1, good, (s: nat) => LeftWorth(r, [up, s, z, 0], good));
    SpawnsAre(r, [up, 0, z, 0], 3, good, (s: nat) => LeftWorth(r, [up, 0, z, s], good));
    SpawnsAre(r, [0, up, z, 0], 0, good, (s: nat) => LeftWorth(r, [s, up, z, 0], good));
    forall s: nat
      ensures LeftWorth(r, [0, up, z, 0][3 := s], good) == LeftWorth(r, [s, up, z, 0], good)
    {
      LeftReflects(r, [0, up, z, s], good);
    }
    SpawnsAre(r, [0, up, z, 0], 3, good, (s: nat) => LeftWorth(r, [s, up, z, 0], good));
  }

  lemma NextEmpty(b: Board, k: nat)
    requires k < |b|
    ensures EmptyAmong(b, k + 1) == EmptyAmong(b, k) + if b[k] == 0 then [k] else []
    ensures EmptyAmong(b, 0) == []
  {
  }

  lemma EmptyOfSquare(b: Board)
    requires |b| == 4
    ensures EmptyCells(b) == (if b[0] == 0 then [0] else []) + (if b[1] == 0 then [1] else [])
                             + (if b[2] == 0 then [2] else []) + (if b[3] == 0 then [3] else [])
  {
    hide EmptyAmong;
    NextEmpty(b, 0);
    NextEmpty(b, 1);
    NextEmpty(b, 2);
    NextEmpty(b, 3);
  }

  lemma EmptyOfKept(up: nat, z: nat)
    requires up > 0 && z > 0
    ensures EmptyCells([up, 0, z, 0]) == [1, 3]
  {
    hide EmptyCells;
    var b := [up, 0, z, 0];
    EmptyOfSquare(b);
  }

  lemma EmptyOfLeft(up: nat, z: nat)
    requires up > 0 && z > 0
    ensures EmptyCells([0, up, z, 0]) == [0, 3]
  {
    hide EmptyCells;
    var b := [0, up, z, 0];
    EmptyOfSquare(b);
  }

  lemma SpawnsAre(r: Rules, board: Board, cell: nat, good: Goodness, f: nat -> real)
    requires cell < |board| && forall s: nat :: f(s) == LeftWorth(r, board[cell := s], good)
    ensures SpawnSum(r.spawn, AfterSpawn(r, board, cell, good)) == SpawnSum(r.spawn, f)
  {
    hide Merges;
    SpawnSumCongruent(r.spawn, AfterSpawn(r, board, cell, good), f);
  }

  lemma {:induction false} SpawnSumCongruent(spawn: seq<(nat, real)>, f: nat -> real, g: nat -> real)
    requires forall s: nat :: f(s) == g(s)
    ensures SpawnSum(spawn, f) == SpawnSum(spawn, g)
  {
    if |spawn| > 0 {
      SpawnSumCongruent(spawn[1..], f, g);
    }
  }

  /** Keeping the merged tile in the corner never beats letting the next spawn fall into it, unless
      the third tile matches the merged one. */
  lemma LeavingIsBetter(r: Rules, up: nat, z: nat, s: nat, good: Goodness)
    requires r.size == 2 && Fair(2, good) && up > 0 && z > 0 && s > 0 && z != up
    ensures 0.5 * LeftWorth(r, [up, s, z, 0], good) + 0.5 * LeftWorth(r, [up, 0, z, s], good) <= LeftWorth(r, [s, up, z, 0], good)
  {
    hide LeftWorth, Fair;
    var open, shut, next := [up, s, z, 0], [up, 0, z, s], [s, up, z, 0];
    if s == up {
      DeadIsWorst(r, shut, next, good);
    } else {
      DeadIsWorst(r, open, next, good);
      if s == z {
        LeftMoves(r, shut, good);
      } else {
        DeadIsWorst(r, shut, next, good);
      }
    }
  }

  lemma KeepingIsBetter(r: Rules, up: nat, s: nat, good: Goodness)
    requires r.size == 2 && Fair(2, good) && up > 0 && s > 0
    ensures LeftWorth(r, [s, up, up, 0], good) <= LeftWorth(r, [up, s, up, 0], good)
    ensures LeftWorth(r, [up, 0, up, s], good) == LeftWorth(r, [up, s, up, 0], good)
  {
    hide LeftWorth, Fair;
    LeftReflects(r, [up, 0, up, s], good);
    if s != up {
      DeadIsWorst(r, [s, up, up, 0], [up, s, up, 0], good);
    }
  }

  function BetterSurvivor(r: Rules, y: nat, z: nat): Action {
    Merge(0, 1, if z == Promoted(y, r.cap) then 0 else 1)
  }

  lemma BetterSurvivorWins(r: Rules, x: Game, y: nat, z: nat, good: Goodness)
    requires r.size == 2 && !x.failed && x.board == [y, y, z, 0] && y > 0 && z > 0 && r.cap > 0 && Fair(2, good)
    requires PositiveSpawn(r.spawn)
    ensures StepWorth(r, x, Merge(0, 1, 0), good) <= StepWorth(r, x, BetterSurvivor(r, y, z), good)
    ensures StepWorth(r, x, Merge(0, 1, 1), good) <= StepWorth(r, x, BetterSurvivor(r, y, z), good)
  {
    hide StepWorth, SpawnSum, LeftWorth, Fair, Merges;
    var up := Promoted(y, r.cap);
    CornerWorth(r, x, y, z, good);
    var open, shut := (s: nat) => LeftWorth(r, [up, s, z, 0], good), (s: nat) => LeftWorth(r, [up, 0, z, s], good);
    var next := (s: nat) => LeftWorth(r, [s, up, z, 0], good);
    var mean := (s: nat) => 0.5 * open(s) + 0.5 * shut(s);
    SpawnSumMean(r.spawn, open, shut, mean);
    if z == up {
      forall s: nat | s > 0
        ensures next(s) <= mean(s)
      {
        KeepingIsBetter(r, up, s, good);
      }
      SpawnSumMonotone(r.spawn, next, mean);
    } else {
      forall s: nat | s > 0
        ensures mean(s) <= next(s)
      {
        LeavingIsBetter(r, up, z, s, good);
      }
      SpawnSumMonotone(r.spawn, mean, next);
    }
  }

  /** Two tiles: the square's own symmetry exchanges the two ways to merge. */
  lemma PairIsSymmetric(r: Rules, x: Game, y: nat, good: Goodness)
    requires r.size == 2 && !x.failed && x.board == [y, y, 0, 0] && y > 0 && Fair(2, good)
    ensures Merge(0, 1, 0) in Merges(x.board, 2) && Merge(0, 1, 1) in Merges(x.board, 2)
    ensures StepWorth(r, x, Merge(0, 1, 0), good) == StepWorth(r, x, Merge(0, 1, 1), good)
  {
    hide Merges, StepWorth, Fair, MoveCell, MoveBoard;
    var first, second: Action := Merge(0, 1, 0), Merge(0, 1, 1);
    SquareMerges(x.board, first);
    SquareMerges(x.board, second);
    QuarterBoard(x.board);
    QuarterCells();
    TransposeCells();
    StepWorthMoves(r, x, first, TRANSPOSE, good);
    var t := MoveGame(x, 2, TRANSPOSE);
    TransposeBoard(x.board);
    var turned := MoveAction(first, 2, TRANSPOSE);
    LegalMoves(x.board, 2, first, TRANSPOSE);
    StepWorthMoves(r, t, turned, QUARTER, good);
    QuarterBoard(t.board);
    assert MoveGame(t, 2, QUARTER) == x;
    assert turned == Merge(0, 2, 0);
    assert MoveAction(turned, 2, QUARTER) == second;
  }

  /** Three equal tiles: the second pair mirrors the first. */
  lemma TripleIsSymmetric(r: Rules, x: Game, y: nat, good: Goodness)
    requires r.size == 2 && !x.failed && x.board == [y, y, y, 0] && y > 0 && Fair(2, good)
    ensures StepWorth(r, x, Merge(0, 2, 0), good) == StepWorth(r, x, Merge(0, 1, 0), good)
    ensures StepWorth(r, x, Merge(0, 2, 2), good) == StepWorth(r, x, Merge(0, 1, 1), good)
  {
    hide Merges, StepWorth, Fair, MoveCell, MoveBoard;
    var first, second: Action := Merge(0, 1, 0), Merge(0, 1, 1);
    SquareMerges(x.board, first);
    SquareMerges(x.board, second);
    TransposeCells();
    TransposeBoard(x.board);
    assert MoveGame(x, 2, TRANSPOSE) == x;
    StepWorthMoves(r, x, first, TRANSPOSE, good);
    StepWorthMoves(r, x, second, TRANSPOSE, good);
    assert MoveAction(first, 2, TRANSPOSE) == Merge(0, 2, 0) && MoveAction(second, 2, TRANSPOSE) == Merge(0, 2, 2);
  }

  /** In the standard position one merge is best. */
  lemma StandardBest(r: Rules, x: Game, y: nat, z: nat)
    requires r.size == 2 && !x.failed && x.board == [y, y, z, 0] && y > 0 && r.cap > 0 && PositiveSpawn(r.spawn)
    ensures Unsurpassed(r, x, BetterSurvivor(r, y, z))
  {
    hide Merges, StepWorth, Fair, PositiveSpawn;
    var a := BetterSurvivor(r, y, z);
    SquareMerges(x.board, a);
    forall good: Goodness, b | Fair(2, good) && b in Merges(x.board, 2)
      ensures StepWorth(r, x, b, good) <= StepWorth(r, x, a, good)
    {
      SquareMerges(x.board, b);
      if z == 0 {
        PairIsSymmetric(r, x, y, good);
      } else {
        BetterSurvivorWins(r, x, y, z, good);
        if z == y {
          TripleIsSymmetric(r, x, y, good);
        }
      }
    }
  }

  lemma CornerBest(r: Rules, x: Game, b: Action) returns (a: Action)
    requires r.size == 2 && !x.failed && r.cap > 0 && PositiveSpawn(r.spawn)
    requires b in Merges(x.board, 2) && |x.board| == 4 && x.board[3] == 0
    ensures Unsurpassed(r, x, a)
  {
    hide Merges, Unsurpassed, MoveBoard, MoveAction, PositiveSpawn;
    SquareMerges(x.board, b);
    if x.board[0] == x.board[1] && x.board[0] != 0 {
      assert x.board == [x.board[0], x.board[0], x.board[2], 0];
      StandardBest(r, x, x.board[0], x.board[2]);
      a := BetterSurvivor(r, x.board[0], x.board[2]);
    } else {
      var t := MoveGame(x, 2, TRANSPOSE);
      TransposeBoard(x.board);
      StandardBest(r, t, t.board[0], t.board[2]);
      BestMoves(r, x, TRANSPOSE, BetterSurvivor(r, t.board[0], t.board[2]));
      a := MoveAction(BetterSurvivor(r, t.board[0], t.board[2]), 2, Inverse(TRANSPOSE));
    }
  }

  /** Quarter turns bring an empty cell into the last corner. */
  function TurnsLeft(e: nat): nat {
    if e == 3 then 0 else if e == 1 then 1 else if e == 0 then 2 else 3
  }

  lemma {:induction false} BestExists(r: Rules, x: Game, b: Action, e: nat) returns (a: Action)
    requires r.size == 2 && !x.failed && r.cap > 0 && PositiveSpawn(r.spawn)
    requires b in Merges(x.board, 2) && |x.board| == 4 && e < 4 && x.board[e] == 0
    ensures Unsurpassed(r, x, a)
    decreases TurnsLeft(e)
  {
    hide Merges, Unsurpassed, MoveBoard, MoveAction, PositiveSpawn;
    if e == 3 {
      a := CornerBest(r, x, b);
    } else {
      var t := MoveGame(x, 2, QUARTER);
      QuarterBoard(x.board);
      LegalMoves(x.board, 2, b, QUARTER);
      var turned := BestExists(r, t, MoveAction(b, 2, QUARTER), if e == 1 then 3 else if e == 0 then 1 else 0);
      BestMoves(r, x, QUARTER, turned);
      a := MoveAction(turned, 2, Inverse(QUARTER));
    }
  }

  // ---- Counting tiles ---------------------------------------------------------------------

  function Tiles(b: Board): int {
    |b| - |EmptyCells(b)|
  }

  lemma {:induction false} EmptyUpdate(b: Board, c: nat, v: nat, k: nat)
    requires c < |b| && k <= |b|
    ensures |EmptyAmong(b[c := v], k)| + (if c < k && b[c] == 0 then 1 else 0)
         == |EmptyAmong(b, k)| + (if c < k && v == 0 then 1 else 0)
  {
    if k > 0 {
      EmptyUpdate(b, c, v, k - 1);
    }
  }

  lemma TilesUpdate(b: Board, c: nat, v: nat)
    requires c < |b|
    ensures Tiles(b[c := v]) + (if b[c] != 0 then 1 else 0) == Tiles(b) + (if v != 0 then 1 else 0)
  {
    EmptyUpdate(b, c, v, |b|);
  }

  lemma TilesMove(b: Board, n: nat, g: Element)
    ensures Tiles(MoveBoard(b, n, g)) == Tiles(b)
  {
    hide MoveBoard, Blocks, EmptyCells, SameMass;
    if |b| == n * n {
      SpawnLawMoves(Rules(n, 0, []), b, 0.0, 0.0, g);
    } else {
      UnmovedBoard(b, n, g);
    }
  }

  lemma UnmovedBoard(b: Board, n: nat, g: Element)
    requires |b| != n * n
    ensures MoveBoard(b, n, g) == b
  {
  }

  /** Every outcome of a legal merge spawns a listed rank in an empty cell. */
  lemma {:induction false} BlocksOutcome(r: Rules, b: Board, cells: seq<nat>, share: real, reward: real, i: nat)
    returns (cell: nat, j: nat)
    requires InBoard(b, cells) && i < |Blocks(r, b, cells, share, reward)|
    ensures cell in cells && cell < |b| && j < |r.spawn|
    ensures Blocks(r, b, cells, share, reward)[i].atom == SpawnAtom(r, b, cell, r.spawn[j].0, reward)
    decreases |cells|
  {
    hide SpawnAtom;
    var k := |cells| - 1;
    var before := Blocks(r, b, cells[..k], share, reward);
    if i < |before| {
      cell, j := BlocksOutcome(r, b, cells[..k], share, reward, i);
    } else {
      cell, j := cells[k], i - |before|;
    }
  }

  lemma LawOutcome(r: Rules, x: Game, a: Action, i: nat)
    requires r.cap > 0 && PositiveSpawn(r.spawn) && i < |Law(r, x, a)|
    ensures var atom := Law(r, x, a)[i].atom;
            && a in Merges(x.board, r.size) && a.first < |x.board|
            && atom.features == MergeReward(x.board[a.first], r.cap)
            && atom.failure == atom.terminal == atom.next.failed
            && Tiles(atom.next.board) == Tiles(x.board) && |atom.next.board| == |x.board|
  {
    hide Merges, Blocks, MergeReward, EmptyCells, Tiles;
    MergesAre(x.board, r.size, a);
    var after := AfterMerge(r, x.board, a);
    var cells := EmptyCells(after);
    EmptyInBoard(after);
    var reward := MergeReward(x.board[a.first], r.cap);
    var cell, j := BlocksOutcome(r, after, cells, 1.0 / |cells| as real, reward, i);
    EmptyIsZero(after, cell);
    TilesUpdate(after, cell, r.spawn[j].0);
    MergeTakesOne(r, x.board, a);
  }

  lemma EmptyIsZero(b: Board, cell: nat)
    requires cell in EmptyCells(b) && cell < |b|
    ensures b[cell] == 0
  {
  }

  lemma MergeTakesOne(r: Rules, b: Board, a: Action)
    requires r.cap > 0 && Mergeable(b, r.size, a.first, a.second)
    ensures Tiles(AfterMerge(r, b, a)) == Tiles(b) - 1
  {
    hide Tiles;
    TilesUpdate(b, a.first, 0);
    TilesUpdate(b[a.first := 0], a.second, 0);
    TilesUpdate(b[a.first := 0][a.second := 0], a.survivor, Promoted(b[a.first], r.cap));
  }

  lemma {:induction false} FullBoard(b: Board, k: nat)
    requires k <= |b| && forall e | 0 <= e < k :: b[e] != 0
    ensures EmptyAmong(b, k) == []
  {
    if k > 0 {
      FullBoard(b, k - 1);
    }
  }

  lemma SomeCellEmpty(b: Board) returns (e: nat)
    requires Tiles(b) < |b|
    ensures e < |b| && b[e] == 0
  {
    if forall d | 0 <= d < |b| :: b[d] != 0 {
      FullBoard(b, |b|);
    }
    e :| 0 <= e < |b| && b[e] == 0;
  }

  /** With at most three tiles all legal merges merge the same rank. */
  lemma SameRank(b: Board, a: Action, a': Action)
    requires a in Merges(b, 2) && a' in Merges(b, 2) && Tiles(b) <= 3
    ensures a.first < |b| && a'.first < |b| && b[a.first] == b[a'.first]
  {
    hide Merges, Tiles;
    SquareMerges(b, a);
    SquareMerges(b, a');
    var e := SomeCellEmpty(b);
  }
}
