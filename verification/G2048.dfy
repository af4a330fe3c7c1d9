/** The explicit-merge Generalized-2048 kernel and its exact equivariance under the symmetries of
    the square, for every board size, rank cap and spawn distribution. */
module G2048 {
  import opened D4
  import opened FiniteSums
  import opened Outcomes
  import opened Symmetry

  /** A board and its absorbing failure status. */
  datatype Game = Game(board: Board, failed: bool)

  datatype Rules = Rules(size: nat, cap: nat, spawn: seq<(nat, real)>)

  ghost predicate ProperRules(r: Rules) {
    forall i | 0 <= i < |r.spawn| :: r.spawn[i].0 > 0 && r.spawn[i].1 > 0.0
  }

  /** The registered configurations: the two normative grids and the 2x2 safe-chain fixture. */
  const TWO_BY_TWO: Rules := Rules(2, 6, [(1, 0.9), (2, 0.1)])
  const SAFE_CHAIN: Rules := Rules(2, 6, [(1, 0.99), (2, 0.01)])
  const THREE_BY_THREE: Rules := Rules(3, 8, [(1, 0.8), (2, 0.15), (3, 0.05)])

  // ---- Legal merges -----------------------------------------------------------------------

  function Distance(x: int, y: int): int {
    if x < y then y - x else x - y
  }

  predicate Adjacent(c: nat, d: nat, n: nat)
    requires n > 0
  {
    var p, q := PointOf(c, n), PointOf(d, n);
    Distance(p.row, q.row) + Distance(p.column, q.column) == 1
  }

  /** Two cells of the board that hold one nonzero rank and touch. */
  predicate Mergeable(board: Board, n: nat, c: nat, d: nat) {
    c < n * n && d < n * n && |board| == n * n && n > 0 && Adjacent(c, d, n) && board[c] != 0 && board[c] == board[d]
  }

  function Choose(first: nat, second: nat, keepFirst: bool): Action
    requires first < second
  {
    Merge(first, second, if keepFirst then first else second)
  }

  function Merges(board: Board, n: nat): set<Action> {
    set c, d, keepFirst | 0 <= c < n * n && 0 <= d < n * n && keepFirst in {true, false} && c < d && Mergeable(board, n, c, d) ::
      Choose(c, d, keepFirst)
  }

  lemma MergesAre(board: Board, n: nat, a: Action)
    ensures a in Merges(board, n) <==> Mergeable(board, n, a.first, a.second)
  {
    if Mergeable(board, n, a.first, a.second) {
      var keepFirst := a.survivor == a.first;
      assert a == Choose(a.first, a.second, keepFirst) && keepFirst in {true, false};
    }
  }

  lemma AdjacentMoves(c: nat, d: nat, n: nat, g: Element)
    requires c < n * n && d < n * n && n > 0
    ensures Adjacent(MoveCell(c, n, g), MoveCell(d, n, g), n) == Adjacent(c, d, n)
    ensures Adjacent(c, d, n) == Adjacent(d, c, n)
  {
    hide MoveCell;
    MovePointOf(c, n, g);
    MovePointOf(d, n, g);
    DistanceMoves(PointOf(c, n), PointOf(d, n), n, g);
  }

  lemma DistanceMoves(p: Point, q: Point, n: nat, g: Element)
    ensures var p', q' := MovePoint(p, n, g), MovePoint(q, n, g);
            Distance(p'.row, q'.row) + Distance(p'.column, q'.column) == Distance(p.row, q.row) + Distance(p.column, q.column)
  {
  }

  lemma MergeableMoves(board: Board, n: nat, c: nat, d: nat, g: Element)
    ensures Mergeable(MoveBoard(board, n, g), n, MoveCell(c, n, g), MoveCell(d, n, g)) == Mergeable(board, n, c, d)
    ensures Mergeable(board, n, c, d) == Mergeable(board, n, d, c)
  {
    hide MoveCell, MoveBoard, Adjacent;
    if c < n * n && d < n * n && |board| == n * n && n > 0 {
      MoveBoardAt(board, n, g, c);
      MoveBoardAt(board, n, g, d);
      AdjacentMoves(c, d, n, g);
    }
  }

  lemma LegalMoves(board: Board, n: nat, a: Action, g: Element)
    ensures MoveAction(a, n, g) in Merges(MoveBoard(board, n, g), n) <==> a in Merges(board, n)
  {
    hide MoveCell, MoveBoard, Mergeable;
    var moved := MoveAction(a, n, g);
    MergesAre(board, n, a);
    MergesAre(MoveBoard(board, n, g), n, moved);
    MergeableMoves(board, n, a.first, a.second, g);
    MergeableMoves(MoveBoard(board, n, g), n, MoveCell(a.first, n, g), MoveCell(a.second, n, g), g);
  }

  /** The legal merges of a moved board are the moved legal merges. */
  lemma MergesEquivariant(board: Board, n: nat, g: Element)
    ensures (set a | a in Merges(board, n) :: MoveAction(a, n, g)) == Merges(MoveBoard(board, n, g), n)
    ensures Merges(board, n) == {} <==> Merges(MoveBoard(board, n, g), n) == {}
  {
    hide Merges, MoveAction, MoveBoard;
    var image := set a | a in Merges(board, n) :: MoveAction(a, n, g);
    forall a | a in Merges(board, n)
      ensures MoveAction(a, n, g) in Merges(MoveBoard(board, n, g), n)
    {
      LegalMoves(board, n, a, g);
    }
    forall b | b in Merges(MoveBoard(board, n, g), n)
      ensures b in image
    {
      var a := MoveAction(b, n, Inverse(g));
      MoveActionInverse(b, n, g);
      LegalMoves(board, n, a, g);
    }
    if Merges(board, n) != {} {
      var a :| a in Merges(board, n);
      assert MoveAction(a, n, g) in image;
    }
  }

  // ---- Merging ----------------------------------------------------------------------------

  function Promoted(rank: nat, cap: nat): nat {
    if rank + 1 <= cap then rank + 1 else cap
  }

  function AfterMerge(r: Rules, board: Board, a: Action): (after: Board)
    requires a.second < |board|
    ensures |after| == |board|
  {
    board[a.first := 0][a.second := 0][a.survivor := Promoted(board[a.first], r.cap)]
  }

  lemma AfterMergeMoves(r: Rules, board: Board, a: Action, g: Element)
    requires Mergeable(board, r.size, a.first, a.second)
    ensures var n := r.size;
            && MoveAction(a, n, g).second < |board|
            && MoveBoard(AfterMerge(r, board, a), n, g) == AfterMerge(r, MoveBoard(board, n, g), MoveAction(a, n, g))
  {
    hide MoveCell, MoveBoard;
    var n := r.size;
    var b1 := board[a.first := 0];
    var b2 := b1[a.second := 0];
    var rank := Promoted(board[a.first], r.cap);
    MoveBoardUpdate(board, n, g, a.first, 0);
    MoveBoardUpdate(b1, n, g, a.second, 0);
    MoveBoardUpdate(b2, n, g, a.survivor, rank);
    MoveBoardAt(board, n, g, a.first);
    MoveBoardAt(board, n, g, a.second);
    Distinct(a, n, g);
    var p, q := MoveCell(a.first, n, g), MoveCell(a.second, n, g);
    var moved := MoveBoard(board, n, g);
    ClearingCommutes(moved, p, q);
  }

  lemma ClearingCommutes(board: Board, p: nat, q: nat)
    requires p < |board| && q < |board|
    ensures board[p := 0][q := 0] == board[q := 0][p := 0]
  {
  }

  // ---- Spawning ---------------------------------------------------------------------------

  /** The empty cells among the first `k`, in increasing order. */
  function EmptyAmong(board: Board, k: nat): (cells: seq<nat>)
    requires k <= |board|
    ensures forall i | 0 <= i < |cells| :: cells[i] < k && board[cells[i]] == 0
  {
    if k == 0 then [] else EmptyAmong(board, k - 1) + if board[k - 1] == 0 then [k - 1] else []
  }

  function EmptyCells(board: Board): seq<nat> {
    EmptyAmong(board, |board|)
  }

  ghost predicate Unique<T(!new)>(xs: seq<T>) {
    forall i, j | 0 <= i < j < |xs| :: xs[i] != xs[j]
  }

  lemma {:induction false} EmptyAmongAre(board: Board, k: nat)
    requires k <= |board|
    ensures Unique(EmptyAmong(board, k))
    ensures forall c | 0 <= c < k && board[c] == 0 :: c in EmptyAmong(board, k)
  {
    if k > 0 {
      EmptyAmongAre(board, k - 1);
    }
  }

  function Spawned(r: Rules, board: Board, cell: nat, rank: nat): Game
    requires cell < |board|
  {
    var next := board[cell := rank];
    Game(next, Merges(next, r.size) == {})
  }

  function SpawnAtom(r: Rules, board: Board, cell: nat, rank: nat, reward: real): Atom<Game, real>
    requires cell < |board|
  {
    var next := Spawned(r, board, cell, rank);
    Atom(next, reward, next.failed, next.failed)
  }

  /** The outcomes of spawning in one cell. */
  function Block(r: Rules, board: Board, cell: nat, share: real, reward: real): Outcomes<Game, real>
    requires cell < |board|
  {
    seq(|r.spawn|, i requires 0 <= i < |r.spawn| =>
      Outcome(share * r.spawn[i].1, SpawnAtom(r, board, cell, r.spawn[i].0, reward)))
  }

  predicate InBoard(board: Board, cells: seq<nat>) {
    forall i | 0 <= i < |cells| :: cells[i] < |board|
  }

  function Blocks(r: Rules, board: Board, cells: seq<nat>, share: real, reward: real): Outcomes<Game, real>
    requires InBoard(board, cells)
  {
    if |cells| == 0 then []
    else Blocks(r, board, cells[..|cells| - 1], share, reward) + Block(r, board, cells[|cells| - 1], share, reward)
  }

  function Power(n: nat): nat {
    if n == 0 then 1 else 2 * Power(n - 1)
  }

  function MergeReward(rank: nat, cap: nat): real
  {
    PowerPositive(cap + 1);
    Power(rank + 1) as real / Power(cap + 1) as real
  }

  lemma PowerPositive(n: nat)
    ensures Power(n) > 0
  {
  }

  /** The exact law of one legal merge; nothing is promised of illegal ones. */
  function Law(r: Rules, x: Game, a: Action): Outcomes<Game, real> {
    if x.failed || a !in Merges(x.board, r.size) then []
    else
      MergesAre(x.board, r.size, a);
      var after := AfterMerge(r, x.board, a);
      var cells := EmptyCells(after);
      if |cells| == 0 then []
      else Blocks(r, after, cells, 1.0 / |cells| as real, MergeReward(x.board[a.first], r.cap))
  }

  function GameKernel(r: Rules): Kernel<Game, Action, real> {
    Kernel((x: Game) => if x.failed then {} else Merges(x.board, r.size), (x, a) => Law(r, x, a), (x: Game) => x.failed)
  }

  function MoveGame(x: Game, n: nat, g: Element): Game {
    Game(MoveBoard(x.board, n, g), x.failed)
  }

  function BoardSymmetries(n: nat): GroupAction<Element, Game, Action> {
    GroupAction(ELEMENTS, (g, x) => MoveGame(x, n, g), (g, a) => MoveAction(a, n, g), (g, h) => Compose(g, h), g => Inverse(g))
  }

  // ---- The kernel's loops -----------------------------------------------------------------

  /** All pairs of cells in increasing order, each mergeable pair with both survivors. */
  method ListActions(r: Rules, x: Game) returns (actions: seq<Action>)
    ensures forall a :: a in actions <==> a in GameKernel(r).actions(x)
  {
    hide Mergeable, Merges;
    actions := [];
    if x.failed {
      return;
    }
    var count := r.size * r.size;
    for c := 0 to count
      invariant forall a: Action :: a in actions <==> a.first < c && Mergeable(x.board, r.size, a.first, a.second)
    {
      for d := c + 1 to count
        invariant forall a: Action :: a in actions <==>
                    (a.first < c || (a.first == c && a.second < d)) && Mergeable(x.board, r.size, a.first, a.second)
      {
        if Mergeable(x.board, r.size, c, d) {
          actions := actions + [Choose(c, d, true), Choose(c, d, false)];
        }
      }
      MergeableInBoard(x.board, r.size);
    }
    MergeableInBoard(x.board, r.size);
    forall a: Action
      ensures a in Merges(x.board, r.size) <==> Mergeable(x.board, r.size, a.first, a.second)
    {
      MergesAre(x.board, r.size, a);
    }
  }

  lemma MergeableInBoard(board: Board, n: nat)
    ensures forall c: nat, d: nat | Mergeable(board, n, c, d) :: c < n * n && d < n * n
  {
  }

  datatype StepResult = Stepped(outcomes: Outcomes<Game, real>) | IllegalAction

  /** One step: merge, then a spawn of every rank in every empty cell. */
  method Step(r: Rules, x: Game, a: Action) returns (result: StepResult)
    ensures result == if a in GameKernel(r).actions(x) then Stepped(Law(r, x, a)) else IllegalAction
  {
    hide Merges, Block, AfterMerge, EmptyCells, MergeReward;
    var actions := ListActions(r, x);
    if a !in actions {
      return IllegalAction;
    }
    MergesAre(x.board, r.size, a);
    var after := AfterMerge(r, x.board, a);
    var cells := EmptyCells(after);
    EmptyInBoard(after);
    if |cells| == 0 {
      return Stepped([]);
    }
    var share, reward := 1.0 / |cells| as real, MergeReward(x.board[a.first], r.cap);
    var outcomes: Outcomes<Game, real> := [];
    for i := 0 to |cells|
      invariant outcomes == Blocks(r, after, cells[..i], share, reward)
    {
      var block := SpawnIn(r, after, cells[i], share, reward);
      outcomes := outcomes + block;
      assert cells[..i + 1][..i] == cells[..i];
    }
    assert cells[..|cells|] == cells;
    return Stepped(outcomes);
  }

  method SpawnIn(r: Rules, board: Board, cell: nat, share: real, reward: real) returns (block: Outcomes<Game, real>)
    requires cell < |board|
    ensures block == Block(r, board, cell, share, reward)
  {
    hide Merges;
    block := [];
    for i := 0 to |r.spawn|
      invariant |block| == i && forall j | 0 <= j < i :: block[j] == Block(r, board, cell, share, reward)[j]
    {
      var next := board[cell := r.spawn[i].0];
      var failed := Merges(next, r.size) == {};
      block := block + [Outcome(share * r.spawn[i].1, Atom(Game(next, failed), reward, failed, failed))];
    }
  }

  lemma EmptyInBoard(board: Board)
    ensures InBoard(board, EmptyCells(board)) && Unique(EmptyCells(board))
  {
    EmptyAmongAre(board, |board|);
  }

  lemma {:induction false} BlocksPositive(r: Rules, board: Board, cells: seq<nat>, share: real, reward: real)
    requires ProperRules(r) && InBoard(board, cells) && share > 0.0
    ensures Positive(Blocks(r, board, cells, share, reward))
  {
    hide SpawnAtom;
    if |cells| > 0 {
      BlocksPositive(r, board, cells[..|cells| - 1], share, reward);
    }
  }

  /** Every outcome has positive probability. */
  lemma GameIsPositive(r: Rules)
    requires ProperRules(r)
    ensures PositiveKernel(GameKernel(r))
  {
    hide Merges, Blocks, EmptyCells, MergeReward;
    forall x: Game, a: Action
      ensures Positive(Law(r, x, a))
    {
      if !x.failed && a in Merges(x.board, r.size) {
        MergesAre(x.board, r.size, a);
        var after := AfterMerge(r, x.board, a);
        var cells := EmptyCells(after);
        EmptyInBoard(after);
        if |cells| > 0 {
          BlocksPositive(r, after, cells, 1.0 / |cells| as real, MergeReward(x.board[a.first], r.cap));
        }
      }
    }
  }

  // ---- The group --------------------------------------------------------------------------

  /** The transforms form a group acting on all states and actions, for every size. */
  lemma BoardSymmetriesAreAGroup(n: nat)
    ensures GroupLaws(BoardSymmetries(n))
  {
    hide MoveBoard, MoveAction, Compose, Inverse;
    forall g: Element
      ensures g in ELEMENTS
    {
      AllElements(g);
    }
    forall g: Element, x: Game
      ensures MoveGame(MoveGame(x, n, g), n, Inverse(g)) == x && MoveGame(MoveGame(x, n, Inverse(g)), n, g) == x
    {
      MoveBoardInverse(x.board, n, g);
    }
    forall g: Element, a: Action
      ensures MoveAction(MoveAction(a, n, g), n, Inverse(g)) == a && MoveAction(MoveAction(a, n, Inverse(g)), n, g) == a
    {
      MoveActionInverse(a, n, g);
    }
    forall g: Element, h: Element, x: Game
      ensures MoveGame(x, n, Compose(g, h)) == MoveGame(MoveGame(x, n, h), n, g)
    {
      MoveBoardCompose(x.board, n, g, h);
    }
    forall g: Element, h: Element, a: Action
      ensures MoveAction(a, n, Compose(g, h)) == MoveAction(MoveAction(a, n, h), n, g)
    {
      MoveActionCompose(a, n, g, h);
    }
  }

  // ---- Equivariance of the law ------------------------------------------------------------

  function MoveCells(cells: seq<nat>, n: nat, g: Element): (moved: seq<nat>)
    ensures |moved| == |cells|
    ensures forall i | 0 <= i < |cells| :: moved[i] == MoveCell(cells[i], n, g)
  {
    seq(|cells|, i requires 0 <= i < |cells| => MoveCell(cells[i], n, g))
  }

  function GameMap(n: nat, g: Element): Game -> Game {
    StateMap(BoardSymmetries(n), g)
  }

  lemma SpawnAtomMoves(r: Rules, board: Board, cell: nat, rank: nat, reward: real, g: Element)
    requires cell < |board| == r.size * r.size
    ensures MoveCell(cell, r.size, g) < |board|
    ensures MapAtom(SpawnAtom(r, board, cell, rank, reward), GameMap(r.size, g))
         == SpawnAtom(r, MoveBoard(board, r.size, g), MoveCell(cell, r.size, g), rank, reward)
  {
    hide MoveCell, MoveBoard, Merges, MoveAction;
    MoveBoardUpdate(board, r.size, g, cell, rank);
    MergesEquivariant(board[cell := rank], r.size, g);
  }

  lemma BlockMoves(r: Rules, board: Board, cell: nat, share: real, reward: real, g: Element)
    requires cell < |board| == r.size * r.size
    ensures MoveCell(cell, r.size, g) < |board|
    ensures Mapped(Block(r, board, cell, share, reward), GameMap(r.size, g))
         == Block(r, MoveBoard(board, r.size, g), MoveCell(cell, r.size, g), share, reward)
  {
    hide MoveCell, MoveBoard, SpawnAtom, GameMap;
    var here := Mapped(Block(r, board, cell, share, reward), GameMap(r.size, g));
    SpawnAtomMoves(r, board, cell, 1, reward, g);
    var there := Block(r, MoveBoard(board, r.size, g), MoveCell(cell, r.size, g), share, reward);
    forall i | 0 <= i < |r.spawn|
      ensures here[i] == there[i]
    {
      SpawnAtomMoves(r, board, cell, r.spawn[i].0, reward, g);
    }
  }

  lemma {:induction false} MappedConcat(xs: Outcomes<Game, real>, ys: Outcomes<Game, real>, t: Game -> Game)
    ensures Mapped(xs + ys, t) == Mapped(xs, t) + Mapped(ys, t)
  {
    hide MapAtom;
    var whole, parts := Mapped(xs + ys, t), Mapped(xs, t) + Mapped(ys, t);
    forall i | 0 <= i < |whole|
      ensures whole[i] == parts[i]
    {
    }
  }

  lemma {:induction false} BlocksMove(r: Rules, board: Board, cells: seq<nat>, share: real, reward: real, g: Element)
    requires |board| == r.size * r.size && InBoard(board, cells)
    ensures InBoard(MoveBoard(board, r.size, g), MoveCells(cells, r.size, g))
    ensures Mapped(Blocks(r, board, cells, share, reward), GameMap(r.size, g))
         == Blocks(r, MoveBoard(board, r.size, g), MoveCells(cells, r.size, g), share, reward)
  {
    hide MoveCell, MoveBoard, Block, GameMap;
    if |cells| > 0 {
      var k := |cells| - 1;
      BlocksMove(r, board, cells[..k], share, reward, g);
      BlockMoves(r, board, cells[k], share, reward, g);
      MappedConcat(Blocks(r, board, cells[..k], share, reward), Block(r, board, cells[k], share, reward), GameMap(r.size, g));
      assert MoveCells(cells, r.size, g)[..k] == MoveCells(cells[..k], r.size, g);
    }
  }

  ghost function BlockMass(r: Rules, board: Board, share: real, reward: real, atom: Atom<Game, real>): nat -> real {
    (c: nat) => if c < |board| then Mass(Block(r, board, c, share, reward), atom) else 0.0
  }

  ghost function CellSet(cells: seq<nat>): set<nat> {
    set i | 0 <= i < |cells| :: cells[i]
  }

  lemma CellSetSnoc(cells: seq<nat>)
    requires |cells| > 0 && Unique(cells)
    ensures var last := cells[|cells| - 1];
            && Unique(cells[..|cells| - 1]) && last !in CellSet(cells[..|cells| - 1])
            && CellSet(cells) == CellSet(cells[..|cells| - 1]) + {last}
  {
    var before, last := cells[..|cells| - 1], cells[|cells| - 1];
    forall c | c in CellSet(cells)
      ensures c in CellSet(before) + {last}
    {
      var i :| 0 <= i < |cells| && cells[i] == c;
      assert i < |before| ==> before[i] == c;
    }
    forall c | c in CellSet(before)
      ensures c in CellSet(cells) && c != last
    {
      var i :| 0 <= i < |before| && before[i] == c;
      assert cells[i] == c;
    }
  }

  /** The mass of the blocks of distinct cells depends only on the set of cells. */
  lemma {:induction false} MassOfBlocks(r: Rules, board: Board, cells: seq<nat>, share: real, reward: real, atom: Atom<Game, real>)
    requires InBoard(board, cells) && Unique(cells)
    ensures Mass(Blocks(r, board, cells, share, reward), atom) == SumOver(CellSet(cells), BlockMass(r, board, share, reward, atom))
    ensures |CellSet(cells)| == |cells|
  {
    hide Block, SumOver, Mass, CellSet;
    var f := BlockMass(r, board, share, reward, atom);
    if |cells| == 0 {
      NoCells();
      SumEmpty(f);
      MassOfNothing(atom);
    } else {
      var k := |cells| - 1;
      CellSetSnoc(cells);
      MassOfBlocks(r, board, cells[..k], share, reward, atom);
      MassConcat(Blocks(r, board, cells[..k], share, reward), Block(r, board, cells[k], share, reward), atom);
      SumRemove(CellSet(cells), f, cells[k]);
      assert CellSet(cells) - {cells[k]} == CellSet(cells[..k]);
    }
  }

  lemma NoCells()
    ensures CellSet([]) == {}
  {
  }

  lemma MassOfNothing(atom: Atom<Game, real>)
    ensures Mass([], atom) == 0.0
  {
  }

  /** The empty cells of a moved board are the moved empty cells. */
  lemma EmptyCellsMove(board: Board, n: nat, g: Element)
    requires |board| == n * n
    ensures Unique(EmptyCells(board)) && Unique(MoveCells(EmptyCells(board), n, g))
    ensures CellSet(MoveCells(EmptyCells(board), n, g)) == CellSet(EmptyCells(MoveBoard(board, n, g)))
  {
    hide MoveCell, MoveBoard, EmptyAmong;
    var moved := MoveBoard(board, n, g);
    var here, there := EmptyCells(board), EmptyCells(moved);
    EmptyAmongAre(board, |board|);
    EmptyAmongAre(moved, |moved|);
    forall i, j | 0 <= i < j < |here|
      ensures MoveCell(here[i], n, g) != MoveCell(here[j], n, g)
    {
      if MoveCell(here[i], n, g) == MoveCell(here[j], n, g) {
        MoveCellInjective(here[i], here[j], n, g);
      }
    }
    forall i | 0 <= i < |here|
      ensures MoveCell(here[i], n, g) in there
    {
      MoveBoardAt(board, n, g, here[i]);
    }
    forall i | 0 <= i < |there|
      ensures exists j :: 0 <= j < |here| && MoveCell(here[j], n, g) == there[i]
    {
      var c := MoveCell(there[i], n, Inverse(g));
      MoveCellInverse(there[i], n, g);
      MoveBoardAt(board, n, g, c);
      assert c in here;
    }
    SameCells(MoveCells(here, n, g), there);
  }

  lemma SameCells(xs: seq<nat>, ys: seq<nat>)
    requires forall i | 0 <= i < |xs| :: xs[i] in ys
    requires forall i | 0 <= i < |ys| :: ys[i] in xs
    ensures CellSet(xs) == CellSet(ys)
  {
    assert forall c :: c in CellSet(xs) <==> c in xs;
    assert forall c :: c in CellSet(ys) <==> c in ys;
  }

  /** Spawning after a moved merge has the law of moving the outcomes of the merge. */
  lemma SpawnLawMoves(r: Rules, board: Board, share: real, reward: real, g: Element)
    requires |board| == r.size * r.size
    ensures |EmptyCells(MoveBoard(board, r.size, g))| == |EmptyCells(board)|
    ensures SameMass(Mapped(Blocks(r, board, EmptyCells(board), share, reward), GameMap(r.size, g)),
                     Blocks(r, MoveBoard(board, r.size, g), EmptyCells(MoveBoard(board, r.size, g)), share, reward))
  {
    hide MoveCell, MoveBoard, Blocks, Block, GameMap, EmptyCells, SumOver, CellSet, Mass;
    var moved := MoveBoard(board, r.size, g);
    var here, there := EmptyCells(board), EmptyCells(moved);
    EmptyInBoard(board);
    EmptyInBoard(moved);
    EmptyCellsMove(board, r.size, g);
    BlocksMove(r, board, here, share, reward, g);
    var across := MoveCells(here, r.size, g);
    forall atom: Atom<Game, real>
      ensures Mass(Blocks(r, moved, across, share, reward), atom) == Mass(Blocks(r, moved, there, share, reward), atom)
      ensures |across| == |there|
    {
      MassOfBlocks(r, moved, across, share, reward, atom);
      MassOfBlocks(r, moved, there, share, reward, atom);
    }
    var some := Atom(Game([], false), 0.0, false, false);
    assert Mass(Blocks(r, moved, across, share, reward), some) == Mass(Blocks(r, moved, there, share, reward), some);
  }

  /** The kernel is exactly equivariant: actions, terminal status and the law of every action. */
  lemma KernelIsEquivariant(r: Rules, g: Element, x: Game)
    ensures var k, ga := GameKernel(r), BoardSymmetries(r.size);
            && Image(ga, g, k.actions(x)) == k.actions(ga.onState(g, x))
            && k.terminal(ga.onState(g, x)) == k.terminal(x)
            && forall a | a in k.actions(x) :: StepEquivariant(k, ga, g, x, a)
  {
    hide MoveCell, MoveBoard, MoveAction, Merges, Law, SameMass, Mapped;
    var k, ga := GameKernel(r), BoardSymmetries(r.size);
    MergesEquivariant(x.board, r.size, g);
    forall a | a in k.actions(x)
      ensures StepEquivariant(k, ga, g, x, a)
    {
      LawMoves(r, x, a, g);
    }
  }

  lemma LawMoves(r: Rules, x: Game, a: Action, g: Element)
    requires !x.failed && a in Merges(x.board, r.size)
    ensures SameMass(Mapped(Law(r, x, a), GameMap(r.size, g)), Law(r, MoveGame(x, r.size, g), MoveAction(a, r.size, g)))
  {
    hide MoveCell, MoveBoard, MoveAction, Merges, SameMass, Mapped, Blocks, GameMap, AfterMerge, EmptyCells, Mergeable;
    var n := r.size;
    var moved := MoveBoard(x.board, n, g);
    LegalMoves(x.board, n, a, g);
    MergesAre(x.board, n, a);
    MergesAre(moved, n, MoveAction(a, n, g));
    SizeOfMergeable(x.board, n, a.first, a.second);
    SizeOfMergeable(moved, n, MoveAction(a, n, g).first, MoveAction(a, n, g).second);
    AfterMergeMoves(r, x.board, a, g);
    MergedRank(r, x.board, a, g);
    var after := AfterMerge(r, x.board, a);
    EmptyInBoard(after);
    MergeLeavesRoom(r, x.board, a);
    SpawnLawMoves(r, after, 1.0 / |EmptyCells(after)| as real, MergeReward(x.board[a.first], r.cap), g);
  }

  lemma SizeOfMergeable(board: Board, n: nat, c: nat, d: nat)
    requires Mergeable(board, n, c, d)
    ensures c < |board| && d < |board| == n * n
  {
  }

  lemma MergedRank(r: Rules, board: Board, a: Action, g: Element)
    requires Mergeable(board, r.size, a.first, a.second)
    ensures var b := MoveAction(a, r.size, g);
            b.first < |board| && MoveBoard(board, r.size, g)[b.first] == board[a.first]
  {
    hide MoveCell, MoveBoard;
    MoveBoardAt(board, r.size, g, a.first);
    MoveBoardAt(board, r.size, g, a.second);
  }

  /** A legal merge leaves an empty cell, so the kernel's own assertion never fires. */
  lemma MergeLeavesRoom(r: Rules, board: Board, a: Action)
    requires Mergeable(board, r.size, a.first, a.second)
    ensures EmptyCells(AfterMerge(r, board, a)) != []
  {
    var after := AfterMerge(r, board, a);
    EmptyAmongAre(after, |after|);
    var cleared := if a.survivor == a.first then a.second else a.first;
    assert after[cleared] == 0;
  }

  // ---- Total probability ------------------------------------------------------------------

  ghost function SpawnTotal(spawn: seq<(nat, real)>): real {
    if |spawn| == 0 then 0.0 else spawn[0].1 + SpawnTotal(spawn[1..])
  }

  lemma {:induction false} TotalConcat(xs: Outcomes<Game, real>, ys: Outcomes<Game, real>)
    ensures TotalProbability(xs + ys) == TotalProbability(xs) + TotalProbability(ys)
  {
    if |xs| == 0 {
      assert xs + ys == ys;
    } else {
      TotalConcat(xs[1..], ys);
      assert (xs + ys)[1..] == xs[1..] + ys;
    }
  }

  lemma {:induction false} ScaledTotal(os: Outcomes<Game, real>, spawn: seq<(nat, real)>, share: real)
    requires |os| == |spawn| && forall i | 0 <= i < |os| :: os[i].probability == share * spawn[i].1
    ensures TotalProbability(os) == share * SpawnTotal(spawn)
  {
    if |os| > 0 {
      assert forall i | 0 <= i < |os| - 1 :: os[1..][i] == os[i + 1] && spawn[1..][i] == spawn[i + 1];
      ScaledTotal(os[1..], spawn[1..], share);
      Distribute(share, spawn[0].1, SpawnTotal(spawn[1..]));
    }
  }

  lemma OneMoreShare(k: nat, share: real)
    ensures (k + 1) as real * share == k as real * share + share
  {
    Distribute(share, k as real, 1.0);
  }

  lemma {:induction false} BlocksTotal(r: Rules, board: Board, cells: seq<nat>, share: real, reward: real)
    requires InBoard(board, cells) && SpawnTotal(r.spawn) == 1.0
    ensures TotalProbability(Blocks(r, board, cells, share, reward)) == |cells| as real * share
  {
    hide TotalProbability, SpawnTotal, SpawnAtom;
    if |cells| == 0 {
      assert Blocks(r, board, cells, share, reward) == [];
      TotalOfNothing();
    } else {
      var k := |cells| - 1;
      var before, last := Blocks(r, board, cells[..k], share, reward), Block(r, board, cells[k], share, reward);
      BlocksTotal(r, board, cells[..k], share, reward);
      ScaledTotal(last, r.spawn, share);
      TotalConcat(before, last);
      OneMoreShare(k, share);
    }
  }

  lemma TotalOfNothing()
    ensures TotalProbability<Game, real>([]) == 0.0
  {
  }

  /** Every legal merge has total outcome probability one. */
  lemma LawIsStochastic(r: Rules, x: Game, a: Action)
    requires !x.failed && a in Merges(x.board, r.size) && SpawnTotal(r.spawn) == 1.0
    ensures TotalProbability(Law(r, x, a)) == 1.0
  {
    hide Blocks, Merges, EmptyCells, AfterMerge;
    MergesAre(x.board, r.size, a);
    MergeLeavesRoom(r, x.board, a);
    var after := AfterMerge(r, x.board, a);
    var cells := EmptyCells(after);
    EmptyInBoard(after);
    BlocksTotal(r, after, cells, 1.0 / |cells| as real, MergeReward(x.board[a.first], r.cap));
  }

  lemma RegisteredSpawnsAreStochastic()
    ensures ProperRules(TWO_BY_TWO) && SpawnTotal(TWO_BY_TWO.spawn) == 1.0
    ensures ProperRules(SAFE_CHAIN) && SpawnTotal(SAFE_CHAIN.spawn) == 1.0
    ensures ProperRules(THREE_BY_THREE) && SpawnTotal(THREE_BY_THREE.spawn) == 1.0
  {
    assert SpawnTotal(SAFE_CHAIN.spawn[1..]) == 0.01;
    assert SpawnTotal(TWO_BY_TWO.spawn[1..]) == 0.1;
    assert THREE_BY_THREE.spawn[1..][1..] == [(3, 0.05)];
    assert SpawnTotal(THREE_BY_THREE.spawn[1..][1..]) == 0.05;
  }

  // ---- Symmetric play ---------------------------------------------------------------------

  /** A state-time graph closed under the symmetries, with honest failure flags. */
  ghost predicate SymmetricNodes(n: nat, nodes: seq<Node<Game>>) {
    && (forall v, g: Element {:trigger MoveGame(v.state, n, g)} | v in nodes :: InGraph(nodes, v.remaining, MoveGame(v.state, n, g)))
    && (forall v | v in nodes :: v.failure == v.state.failed)
  }

  /** The automorphism recomputation passes on every such graph of the game. */
  lemma GamePassesRecomputation(r: Rules, nodes: seq<Node<Game>>)
    requires SymmetricNodes(r.size, nodes) && HonestTerminalFlags(GameKernel(r), nodes)
    ensures Automorphic(GameKernel(r), BoardSymmetries(r.size), nodes)
  {
    hide StepEquivariant;
    var k, ga := GameKernel(r), BoardSymmetries(r.size);
    forall v, g: Element | v in nodes && g in ga.elements
      ensures NodeEquivariant(k, ga, Index(nodes), g, v)
    {
      KernelIsEquivariant(r, g, v.state);
      var image := MoveGame(v.state, r.size, g);
      assert InGraph(nodes, v.remaining, image);
      var there := Index(nodes)[(v.remaining, image)];
      assert there in nodes && there.state == image;
    }
  }

  /** Boards that are images of each other have the same achievable reward and failure pairs, the
      same frontier and the same constrained optima at every horizon. */
  lemma SymmetricBoardsPlayEqually(r: Rules, nodes: seq<Node<Game>>, w: real -> real, g: Element, h: nat, x: Game)
    requires SymmetricNodes(r.size, nodes) && HonestTerminalFlags(GameKernel(r), nodes)
    requires ClosedGraph(GameKernel(r), nodes) && InGraph(nodes, h, x)
    ensures var k, y := GameKernel(r), MoveGame(x, r.size, g);
            && (forall v :: Achievable(k, nodes, w, h, y, v) <==> Achievable(k, nodes, w, h, x, v))
            && (forall v :: OnFrontier(k, nodes, w, h, y, v) <==> OnFrontier(k, nodes, w, h, x, v))
            && (forall delta, v ::
                  ConstrainedOptimum(k, nodes, w, h, y, delta, v) <==> ConstrainedOptimum(k, nodes, w, h, x, delta, v))
  {
    hide Automorphic, HonestTerminalFlags, ClosedGraph, GroupLaws, Achievable, OnFrontier, ConstrainedOptimum, SymmetricGraph;
    var k, ga := GameKernel(r), BoardSymmetries(r.size);
    BoardSymmetriesAreAGroup(r.size);
    GamePassesRecomputation(r, nodes);
    PassedCheckIsSymmetric(k, ga, nodes);
    AllElements(g);
    SymmetricStatesHaveEqualValueSets(k, ga, nodes, w, g, h, x);
  }
}
