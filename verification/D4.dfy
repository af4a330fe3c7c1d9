/** The symmetries of a square board: the eight dihedral elements acting on row-major cells, boards
    and merge actions, for every board size. */
module D4 {

  // ---- Elements ---------------------------------------------------------------------------

  /** A left-right reflection or none, followed by clockwise quarter turns. */
  datatype Transform = Transform(reflected: bool, turns: nat)

  type Element = g: Transform | g.turns < 4 witness Transform(false, 0)

  const IDENTITY: Element := Transform(false, 0)

  const ELEMENTS: seq<Element> := [
    Transform(false, 0), Transform(false, 1), Transform(false, 2), Transform(false, 3),
    Transform(true, 0), Transform(true, 1), Transform(true, 2), Transform(true, 3)]

  lemma AllElements(g: Element)
    ensures g in ELEMENTS
  {
    assert ELEMENTS[(if g.reflected then 4 else 0) + g.turns] == g;
  }

  type Turns = t: nat | t < 4

  function AddTurns(s: Turns, t: Turns): Turns {
    if s + t < 4 then s + t else s + t - 4
  }

  function Opposite(t: Turns): Turns {
    if t == 0 then 0 else 4 - t
  }

  /** `left` after `right`; a reflection reverses the turns it passes. */
  function Compose(left: Element, right: Element): Element {
    Transform(left.reflected != right.reflected,
              AddTurns(left.turns, if left.reflected then Opposite(right.turns) else right.turns))
  }

  function Inverse(g: Element): Element {
    if g.reflected then g else Transform(false, Opposite(g.turns))
  }

  lemma InverseLaws(g: Element)
    ensures Compose(g, Inverse(g)) == IDENTITY == Compose(Inverse(g), g)
  {
  }

  lemma InverseOfComposite(g: Element, h: Element)
    ensures Inverse(Compose(g, h)) == Compose(Inverse(h), Inverse(g))
  {
  }

  // ---- Points and cells -------------------------------------------------------------------

  datatype Point = Point(row: int, column: int)

  predicate InSquare(p: Point, n: nat) {
    0 <= p.row < n && 0 <= p.column < n
  }

  function Reflect(p: Point, n: nat): Point {
    Point(p.row, n - 1 - p.column)
  }

  function Turned(p: Point, n: nat, turns: Turns): Point {
    if turns == 0 then p
    else if turns == 1 then Point(p.column, n - 1 - p.row)
    else if turns == 2 then Point(n - 1 - p.row, n - 1 - p.column)
    else Point(n - 1 - p.column, p.row)
  }

  function MovePoint(p: Point, n: nat, g: Element): Point {
    Turned(if g.reflected then Reflect(p, n) else p, n, g.turns)
  }

  lemma TurnedTwice(p: Point, n: nat, s: Turns, t: Turns)
    ensures Turned(Turned(p, n, t), n, s) == Turned(p, n, AddTurns(s, t))
  {
  }

  lemma ReflectTurned(p: Point, n: nat, t: Turns)
    ensures Reflect(Turned(p, n, t), n) == Turned(Reflect(p, n), n, Opposite(t))
    ensures Reflect(Reflect(p, n), n) == p
  {
  }

  lemma MovePointCompose(p: Point, n: nat, g: Element, h: Element)
    ensures MovePoint(MovePoint(p, n, h), n, g) == MovePoint(p, n, Compose(g, h))
    ensures MovePoint(p, n, IDENTITY) == p
  {
    hide Turned, AddTurns, Opposite, Reflect;
    var q := if h.reflected then Reflect(p, n) else p;
    ReflectTurned(q, n, h.turns);
    ReflectTurned(p, n, h.turns);
    TurnedTwice(q, n, g.turns, h.turns);
    TurnedTwice(Reflect(q, n), n, g.turns, Opposite(h.turns));
    assert Turned(p, n, 0) == p by { NoTurn(p, n); }
  }

  lemma NoTurn(p: Point, n: nat)
    ensures Turned(p, n, 0) == p
  {
  }

  lemma MovePointInSquare(p: Point, n: nat, g: Element)
    requires InSquare(p, n)
    ensures InSquare(MovePoint(p, n, g), n)
  {
  }

  function PointOf(cell: nat, n: nat): Point
    requires n > 0
  {
    Point(cell / n, cell % n)
  }

  function CellOf(p: Point, n: nat): int {
    p.row * n + p.column
  }

  lemma PointOfCell(p: Point, n: nat)
    requires InSquare(p, n)
    ensures 0 <= CellOf(p, n) < n * n
    ensures PointOf(CellOf(p, n), n) == p
  {
    var cell := p.row * n + p.column;
    assert p.row * n >= 0 && p.row * n <= (n - 1) * n;
    QuotientUnique(cell, n, p.row, p.column);
  }

  lemma QuotientUnique(x: int, n: int, q: int, r: int)
    requires n > 0 && 0 <= r < n && x == q * n + r
    ensures x / n == q && x % n == r
  {
    var d := q - x / n;
    assert d * n == x % n - r;
    assert d >= 1 ==> d * n >= n;
    assert d <= -1 ==> d * n <= -n;
  }

  lemma CellOfPoint(cell: nat, n: nat)
    requires cell < n * n
    ensures n > 0 && InSquare(PointOf(cell, n), n) && CellOf(PointOf(cell, n), n) == cell
  {
    var q := cell / n;
    assert q * n <= cell;
    assert q >= n ==> q * n >= n * n;
  }

  /** A cell's image; numbers outside the board stay. */
  function MoveCell(cell: nat, n: nat, g: Element): (moved: nat)
    ensures cell < n * n ==> moved < n * n
    ensures cell >= n * n ==> moved == cell
  {
    if cell < n * n then
      CellOfPoint(cell, n);
      MovePointInSquare(PointOf(cell, n), n, g);
      PointOfCell(MovePoint(PointOf(cell, n), n, g), n);
      CellOf(MovePoint(PointOf(cell, n), n, g), n)
    else cell
  }

  /** The coordinate loop of one cell transform. */
  method TransformCell(cell: nat, n: nat, g: Element) returns (moved: nat)
    requires cell < n * n
    ensures moved == MoveCell(cell, n, g)
  {
    CellOfPoint(cell, n);
    MovePointInSquare(PointOf(cell, n), n, g);
    PointOfCell(MovePoint(PointOf(cell, n), n, g), n);
    var row, column := cell / n, cell % n;
    if g.reflected {
      column := n - 1 - column;
    }
    ghost var start := Point(row, column);
    for k := 0 to g.turns
      invariant Point(row, column) == Turned(start, n, k)
    {
      row, column := column, n - 1 - row;
    }
    moved := row * n + column;
  }

  lemma MovePointOf(cell: nat, n: nat, g: Element)
    requires cell < n * n
    ensures n > 0 && PointOf(MoveCell(cell, n, g), n) == MovePoint(PointOf(cell, n), n, g)
  {
    CellOfPoint(cell, n);
    MovePointInSquare(PointOf(cell, n), n, g);
    PointOfCell(MovePoint(PointOf(cell, n), n, g), n);
  }

  /** Cell transforms compose, and the identity moves nothing. */
  lemma MoveCellCompose(cell: nat, n: nat, g: Element, h: Element)
    ensures MoveCell(MoveCell(cell, n, h), n, g) == MoveCell(cell, n, Compose(g, h))
    ensures MoveCell(cell, n, IDENTITY) == cell
  {
    if cell < n * n {
      MovePointOf(cell, n, h);
      CellOfPoint(cell, n);
      MovePointCompose(PointOf(cell, n), n, g, h);
    }
  }

  lemma MoveCellInverse(cell: nat, n: nat, g: Element)
    ensures MoveCell(MoveCell(cell, n, g), n, Inverse(g)) == cell
    ensures MoveCell(MoveCell(cell, n, Inverse(g)), n, g) == cell
  {
    InverseLaws(g);
    MoveCellCompose(cell, n, g, Inverse(g));
    MoveCellCompose(cell, n, Inverse(g), g);
  }

  lemma MoveCellInjective(c: nat, d: nat, n: nat, g: Element)
    requires MoveCell(c, n, g) == MoveCell(d, n, g)
    ensures c == d
  {
    MoveCellInverse(c, n, g);
    MoveCellInverse(d, n, g);
  }

  // ---- Composition by comparison on the 3x3 board -----------------------------------------

  /** The elements are told apart by two corner-region cells of the 3x3 board. */
  lemma FaithfulOnThree(g: Element, h: Element)
    requires forall c | 0 <= c < 9 :: MoveCell(c, 3, g) == MoveCell(c, 3, h)
    ensures g == h
  {
    hide MoveCell;
    assert MoveCell(0, 3, g) == MoveCell(0, 3, h) && MoveCell(1, 3, g) == MoveCell(1, 3, h);
    MovePointOf(0, 3, g);
    MovePointOf(0, 3, h);
    MovePointOf(1, 3, g);
    MovePointOf(1, 3, h);
    assert MovePoint(Point(0, 0), 3, g) == MovePoint(Point(0, 0), 3, h);
    assert MovePoint(Point(0, 1), 3, g) == MovePoint(Point(0, 1), 3, h);
  }

  predicate SameOnThree(left: Element, right: Element, candidate: Element) {
    forall c | 0 <= c < 9 :: MoveCell(MoveCell(c, 3, right), 3, left) == MoveCell(c, 3, candidate)
  }

  /** The search for the composite: the first element with the same 3x3 images. */
  method ComposeBySearch(left: Element, right: Element) returns (composite: Element)
    ensures composite == Compose(left, right)
  {
    hide MoveCell;
    forall c | 0 <= c < 9
      ensures MoveCell(MoveCell(c, 3, right), 3, left) == MoveCell(c, 3, Compose(left, right))
    {
      MoveCellCompose(c, 3, left, right);
    }
    assert SameOnThree(left, right, Compose(left, right));
    AllElements(Compose(left, right));
    for i := 0 to |ELEMENTS|
      invariant forall j | 0 <= j < i :: ELEMENTS[j] != Compose(left, right)
    {
      if SameOnThree(left, right, ELEMENTS[i]) {
        FaithfulOnThree(ELEMENTS[i], Compose(left, right));
        return ELEMENTS[i];
      }
    }
    assert false;
    return IDENTITY;
  }

  // ---- Boards -----------------------------------------------------------------------------

  type Board = seq<nat>

  function MoveBoard(board: Board, n: nat, g: Element): (moved: Board)
    ensures |moved| == |board|
  {
    if |board| != n * n then board
    else seq(n * n, c requires 0 <= c < n * n => board[MoveCell(c, n, Inverse(g))])
  }

  lemma MoveBoardAt(board: Board, n: nat, g: Element, c: nat)
    requires |board| == n * n && c < n * n
    ensures MoveBoard(board, n, g)[MoveCell(c, n, g)] == board[c]
  {
    MoveCellInverse(c, n, g);
  }

  /** Writing every tile to the image of its cell. */
  method TransformBoard(board: Board, n: nat, g: Element) returns (moved: Board)
    requires |board| == n * n
    ensures moved == MoveBoard(board, n, g)
  {
    hide MoveCell;
    var cells := new nat[n * n](_ => 0);
    for s := 0 to n * n
      invariant forall c | 0 <= c < s :: cells[MoveCell(c, n, g)] == board[c]
    {
      forall c | 0 <= c < s
        ensures MoveCell(c, n, g) != MoveCell(s, n, g)
      {
        if MoveCell(c, n, g) == MoveCell(s, n, g) {
          MoveCellInjective(c, s, n, g);
        }
      }
      cells[MoveCell(s, n, g)] := board[s];
    }
    moved := cells[..];
    forall c | 0 <= c < n * n
      ensures moved[c] == MoveBoard(board, n, g)[c]
    {
      MoveCellInverse(c, n, g);
    }
  }

  lemma MoveBoardCompose(board: Board, n: nat, g: Element, h: Element)
    ensures MoveBoard(MoveBoard(board, n, h), n, g) == MoveBoard(board, n, Compose(g, h))
  {
    hide MoveCell;
    if |board| == n * n {
      forall c | 0 <= c < n * n
        ensures MoveBoard(MoveBoard(board, n, h), n, g)[c] == MoveBoard(board, n, Compose(g, h))[c]
      {
        InverseOfComposite(g, h);
        MoveCellCompose(c, n, Inverse(h), Inverse(g));
      }
    }
  }

  lemma MoveBoardInverse(board: Board, n: nat, g: Element)
    ensures MoveBoard(MoveBoard(board, n, g), n, Inverse(g)) == board
    ensures MoveBoard(MoveBoard(board, n, Inverse(g)), n, g) == board
    ensures MoveBoard(board, n, IDENTITY) == board
  {
    hide MoveCell;
    InverseLaws(g);
    MoveBoardCompose(board, n, g, Inverse(g));
    MoveBoardCompose(board, n, Inverse(g), g);
    if |board| == n * n {
      forall c | 0 <= c < n * n
        ensures MoveBoard(board, n, IDENTITY)[c] == board[c]
      {
        MoveCellCompose(c, n, IDENTITY, IDENTITY);
      }
    }
  }

  lemma MoveBoardUpdate(board: Board, n: nat, g: Element, c: nat, rank: nat)
    requires |board| == n * n && c < n * n
    ensures MoveBoard(board[c := rank], n, g) == MoveBoard(board, n, g)[MoveCell(c, n, g) := rank]
  {
    hide MoveCell;
    var moved := MoveBoard(board, n, g)[MoveCell(c, n, g) := rank];
    forall e | 0 <= e < n * n
      ensures MoveBoard(board[c := rank], n, g)[e] == moved[e]
    {
      MoveCellInverse(e, n, g);
      MoveCellInverse(c, n, g);
    }
  }

  // ---- Actions ----------------------------------------------------------------------------

  /** Merge an unordered pair of cells into the survivor. */
  datatype Merge = Merge(first: nat, second: nat, survivor: nat)

  type Action = a: Merge | a.first < a.second && (a.survivor == a.first || a.survivor == a.second)
    witness Merge(0, 1, 0)

  function MoveAction(a: Action, n: nat, g: Element): (moved: Action) {
    var p, q, v := MoveCell(a.first, n, g), MoveCell(a.second, n, g), MoveCell(a.survivor, n, g);
    Distinct(a, n, g);
    if p < q then Merge(p, q, v) else Merge(q, p, v)
  }

  lemma Distinct(a: Action, n: nat, g: Element)
    ensures MoveCell(a.first, n, g) != MoveCell(a.second, n, g)
  {
    if MoveCell(a.first, n, g) == MoveCell(a.second, n, g) {
      MoveCellInjective(a.first, a.second, n, g);
    }
  }

  lemma MoveActionCompose(a: Action, n: nat, g: Element, h: Element)
    ensures MoveAction(MoveAction(a, n, h), n, g) == MoveAction(a, n, Compose(g, h))
    ensures MoveAction(a, n, IDENTITY) == a
  {
    hide MoveCell;
    MoveCellCompose(a.first, n, g, h);
    MoveCellCompose(a.second, n, g, h);
    MoveCellCompose(a.survivor, n, g, h);
    Distinct(a, n, Compose(g, h));
  }

  lemma MoveActionInverse(a: Action, n: nat, g: Element)
    ensures MoveAction(MoveAction(a, n, g), n, Inverse(g)) == a
    ensures MoveAction(MoveAction(a, n, Inverse(g)), n, g) == a
  {
    hide MoveAction;
    InverseLaws(g);
    MoveActionCompose(a, n, g, Inverse(g));
    MoveActionCompose(a, n, Inverse(g), g);
  }
}
