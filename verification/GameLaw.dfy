/** What one step of the game does, cell by cell: which cells touch, what every outcome's board
    holds, with what probability and for what reward. */
module GameLaw {
  import opened D4
  import opened G2048
  import opened Outcomes
  import opened Symmetry

  // ---- Touching cells ---------------------------------------------------------------------

  lemma Division(c: nat, n: nat)
    requires n > 0
    ensures c == c / n * n + c % n && c % n < n
  {
  }

  lemma Later(x: nat, y: nat, n: nat)
    requires x < y
    ensures x * n + n <= y * n
  {
    var k: nat := y - x - 1;
    assert k * n >= 0;
    assert y * n == (x + 1 + k) * n == x * n + n + k * n;
  }

  /** Row and column of a cell are unique. */
  lemma UniqueCell(r: nat, k: nat, s: nat, l: nat, n: nat)
    requires k < n && l < n && r * n + k == s * n + l
    ensures r == s && k == l
  {
    if r < s {
      Later(r, s, n);
    } else if s < r {
      Later(s, r, n);
    }
  }

  ghost predicate Neighbours(r: nat, k: nat, s: nat, l: nat) {
    (r == s && (k == l + 1 || l == k + 1)) || (k == l && (r == s + 1 || s == r + 1))
  }

  lemma NeighboursIff(c: nat, d: nat, r: nat, k: nat, s: nat, l: nat, n: nat)
    requires k < n && l < n && c == r * n + k && d == s * n + l
    ensures Neighbours(r, k, s, l) <==> d == c + n || c == d + n || (d == c + 1 && l != 0) || (c == d + 1 && k != 0)
  {
    assert (r + 1) * n == r * n + n && (s + 1) * n == s * n + n;
    if d == c + n {
      UniqueCell(r + 1, k, s, l, n);
    } else if c == d + n {
      UniqueCell(s + 1, l, r, k, n);
    } else if d == c + 1 && l != 0 {
      UniqueCell(r, k, s, l - 1, n);
    } else if c == d + 1 && k != 0 {
      UniqueCell(s, l, r, k - 1, n);
    }
  }

  lemma AdjacentRows(c: nat, d: nat, n: nat)
    requires n > 0
    ensures Adjacent(c, d, n) <==> Neighbours(c / n, c % n, d / n, d % n)
  {
  }

  /** Two cells touch if and only if one is the right or the lower neighbour of the other. */
  lemma TouchingIff(c: nat, d: nat, n: nat)
    requires n > 0
    ensures Adjacent(c, d, n) <==> d == c + n || c == d + n || (d == c + 1 && d % n != 0) || (c == d + 1 && c % n != 0)
  {
    hide Neighbours, Adjacent;
    var r, k, s, l := c / n, c % n, d / n, d % n;
    AdjacentRows(c, d, n);
    Division(c, n);
    Division(d, n);
    NeighboursIff(c, d, r, k, s, l, n);
  }

  // ---- The free cells ---------------------------------------------------------------------

  ghost function ZerosBelow(board: Board, k: nat): set<nat>
    requires k <= |board|
  {
    set p: nat | p < k && board[p] == 0
  }

  lemma {:induction false} EmptyAmongCount(board: Board, k: nat)
    requires k <= |board|
    ensures |EmptyAmong(board, k)| == |ZerosBelow(board, k)|
    ensures forall e | 0 <= e < |EmptyAmong(board, k)| ::
              var c := EmptyAmong(board, k)[e]; board[c] == 0 && |ZerosBelow(board, c)| == e
  {
    if k > 0 {
      EmptyAmongCount(board, k - 1);
      if board[k - 1] == 0 {
        assert ZerosBelow(board, k) == ZerosBelow(board, k - 1) + {k - 1};
      } else {
        assert ZerosBelow(board, k) == ZerosBelow(board, k - 1);
      }
    }
  }

  /** Entry `j` of row `e` in a list of rows of `n` entries. */
  function Place(e: nat, n: nat, j: nat): nat {
    e * n + j
  }

  // ---- Blocks -----------------------------------------------------------------------------

  ghost function SpawnOutcome(r: Rules, b: Board, cell: nat, share: real, reward: real, j: nat): Outcome<Game, real>
    requires cell < |b| && j < |r.spawn|
  {
    Outcome(share * r.spawn[j].1, SpawnAtom(r, b, cell, r.spawn[j].0, reward))
  }

  lemma {:induction false} BlocksAt(r: Rules, b: Board, cells: seq<nat>, share: real, reward: real, e: nat, j: nat)
    requires InBoard(b, cells) && e < |cells| && j < |r.spawn|
    ensures |Blocks(r, b, cells, share, reward)| == Place(|cells|, |r.spawn|, 0) > Place(e, |r.spawn|, j)
    ensures Blocks(r, b, cells, share, reward)[Place(e, |r.spawn|, j)]
         == SpawnOutcome(r, b, cells[e], share, reward, j)
    decreases |cells|
  {
    hide SpawnAtom;
    var k, n := |cells| - 1, |r.spawn|;
    BlocksSize(r, b, cells, share, reward);
    BlocksSize(r, b, cells[..k], share, reward);
    Later(e, k + 1, n);
    if e < k {
      Later(e, k, n);
      BlocksAt(r, b, cells[..k], share, reward, e, j);
    }
  }

  lemma {:induction false} BlocksSize(r: Rules, b: Board, cells: seq<nat>, share: real, reward: real)
    requires InBoard(b, cells)
    ensures |Blocks(r, b, cells, share, reward)| == |cells| * |r.spawn|
    decreases |cells|
  {
    hide SpawnAtom;
    if |cells| > 0 {
      var k, n := |cells| - 1, |r.spawn|;
      BlocksSize(r, b, cells[..k], share, reward);
      assert (k + 1) * n == k * n + n;
    }
  }

  // ---- Rewards ----------------------------------------------------------------------------

  /** Merging two tiles of the largest rank earns one; every lower rank earns half of the next. */
  lemma RewardScale(rank: nat, cap: nat)
    ensures MergeReward(cap, cap) == 1.0
    ensures MergeReward(rank + 1, cap) == 2.0 * MergeReward(rank, cap)
  {
    PowerPositive(cap + 1);
    var low, high, all := Power(rank + 1) as real, Power(rank + 2) as real, Power(cap + 1) as real;
    assert Power(rank + 2) == 2 * Power(rank + 1);
    assert high == 2.0 * low;
    hide Power;
    Halves(low, all);
  }

  /** A merge `steps` ranks below the largest earns one over two to the number of steps. */
  lemma {:induction false} RewardBelowCap(rank: nat, steps: nat)
    ensures MergeReward(rank, rank + steps) * Power(steps) as real == 1.0
    ensures Power(0) == 1 && Power(steps + 1) == 2 * Power(steps)
  {
    PowerAdds(rank + 1, steps);
    PowerPositive(rank + 1);
    PowerPositive(steps);
    var low, rest := Power(rank + 1) as real, Power(steps) as real;
    assert Power(rank + steps + 1) as real == low * rest;
    Cancels(low, rest);
  }

  lemma Halves(x: real, y: real)
    requires y > 0.0
    ensures 2.0 * x / y == 2.0 * (x / y) && y / y == 1.0
  {
  }

  lemma Cancels(x: real, y: real)
    requires x > 0.0 && y > 0.0
    ensures x * y > 0.0 && x / (x * y) * y == 1.0
  {
    var z := x * y;
    assert x / z * y == x * y / z;
  }

  lemma {:induction false} PowerAdds(m: nat, n: nat)
    ensures Power(m + n) as real == Power(m) as real * Power(n) as real
  {
    if n > 0 {
      PowerAdds(m, n - 1);
      assert Power(m + n) == 2 * Power(m + (n - 1));
    }
  }

  // ---- One step ---------------------------------------------------------------------------

  /** The cells that are free once the merge is done. */
  ghost predicate Free(x: Game, a: Action, p: nat) {
    p < |x.board| && p != a.survivor && (p == a.first || p == a.second || x.board[p] == 0)
  }

  ghost function FreeBelow(x: Game, a: Action, k: nat): set<nat> {
    set p: nat | p < k && Free(x, a, p)
  }

  /** What a cell holds after the merge and the spawn of `rank` in `cell`. */
  ghost function Held(r: Rules, x: Game, a: Action, cell: nat, rank: nat, p: nat): nat
    requires p < |x.board| && a.first < |x.board|
  {
    if p == cell then rank
    else if p == a.survivor then (if x.board[a.first] < r.cap then x.board[a.first] + 1 else r.cap)
    else if p == a.first || p == a.second then 0
    else x.board[p]
  }

  /** Outcome `j` of row `e` of a legal merge: the `j`-th rank spawns in the free cell with
      `e` free cells before it; the survivor is promoted, the other merged cell is cleared and the
      rest of the board stays; the game fails exactly when no merge is left. */
  ghost predicate Describes(r: Rules, x: Game, a: Action, o: Outcome<Game, real>, cell: nat, e: nat, j: nat) {
    && j < |r.spawn| && a.second < |x.board|
    && Free(x, a, cell) && |FreeBelow(x, a, cell)| == e
    && |o.atom.next.board| == |x.board|
    && (forall p: nat | p < |x.board| :: o.atom.next.board[p] == Held(r, x, a, cell, r.spawn[j].0, p))
    && o.probability * |FreeBelow(x, a, |x.board|)| as real == r.spawn[j].1
    && o.atom.features == MergeReward(x.board[a.first], r.cap)
    && o.atom.failure == o.atom.terminal == o.atom.next.failed
    && (o.atom.next.failed <==> forall c: nat, d: nat | c < d :: !Mergeable(o.atom.next.board, r.size, c, d))
  }

  lemma FreeAfterMerge(r: Rules, x: Game, a: Action, k: nat)
    requires r.cap > 0 && a.second < |x.board| && k <= |x.board|
    ensures ZerosBelow(AfterMerge(r, x.board, a), k) == FreeBelow(x, a, k)
  {
  }

  lemma NoMergeLeft(board: Board, n: nat)
    ensures Merges(board, n) == {} <==> forall c: nat, d: nat | c < d :: !Mergeable(board, n, c, d)
  {
    hide Mergeable;
    if c: nat, d: nat :| c < d && Mergeable(board, n, c, d) {
      MergesAre(board, n, Choose(c, d, true));
      assert Choose(c, d, true) in Merges(board, n);
    }
    if Merges(board, n) != {} {
      var a :| a in Merges(board, n);
      MergesAre(board, n, a);
    }
  }

  /** Every outcome of a legal merge, in the order of the step's loops. */
  lemma StepOutcome(r: Rules, x: Game, a: Action, e: nat, j: nat) returns (cell: nat)
    requires r.cap > 0 && !x.failed && a in Merges(x.board, r.size)
    requires e < |FreeBelow(x, a, |x.board|)| && j < |r.spawn|
    ensures |Law(r, x, a)| == Place(|FreeBelow(x, a, |x.board|)|, |r.spawn|, 0) > Place(e, |r.spawn|, j)
    ensures Describes(r, x, a, Law(r, x, a)[Place(e, |r.spawn|, j)], cell, e, j)
  {
    hide Place, SpawnOutcome, Held, Merges, Blocks, MergeReward, Mergeable, AfterMerge, EmptyCells, Free, FreeBelow, Describes, SpawnAtom, Law;
    MergesAre(x.board, r.size, a);
    MergeableSize(x.board, r.size, a.first, a.second);
    var after := AfterMerge(r, x.board, a);
    var cells := EmptyCells(after);
    EmptyInBoard(after);
    cell := FreeCell(r, x, a, e);
    LawIs(r, x, a);
    BlocksAt(r, after, cells, 1.0 / |cells| as real, MergeReward(x.board[a.first], r.cap), e, j);
    SpawnDescribes(r, x, a, cell, e, j);
  }

  lemma LawIs(r: Rules, x: Game, a: Action)
    requires !x.failed && a in Merges(x.board, r.size) && a.second < |x.board|
    requires var cells := EmptyCells(AfterMerge(r, x.board, a)); cells != [] && InBoard(AfterMerge(r, x.board, a), cells)
    ensures var after := AfterMerge(r, x.board, a);
            Law(r, x, a) == Blocks(r, after, EmptyCells(after), 1.0 / |EmptyCells(after)| as real, MergeReward(x.board[a.first], r.cap))
  {
    hide Merges, Blocks, MergeReward, AfterMerge, EmptyCells;
  }

  lemma FreeCell(r: Rules, x: Game, a: Action, e: nat) returns (cell: nat)
    requires r.cap > 0 && a.second < |x.board| && e < |FreeBelow(x, a, |x.board|)|
    ensures var cells := EmptyCells(AfterMerge(r, x.board, a));
            |cells| == |FreeBelow(x, a, |x.board|)| && cell == cells[e]
    ensures Free(x, a, cell) && |FreeBelow(x, a, cell)| == e
  {
    var after := AfterMerge(r, x.board, a);
    EmptyAmongCount(after, |after|);
    FreeAfterMerge(r, x, a, |after|);
    cell := EmptyCells(after)[e];
    FreeAfterMerge(r, x, a, cell);
  }

  lemma SpawnDescribes(r: Rules, x: Game, a: Action, cell: nat, e: nat, j: nat)
    requires r.cap > 0 && j < |r.spawn| && a.second < |x.board|
    requires Free(x, a, cell) && |FreeBelow(x, a, cell)| == e
    ensures var count := |FreeBelow(x, a, |x.board|)|;
            count > 0 && Describes(r, x, a,
              SpawnOutcome(r, AfterMerge(r, x.board, a), cell, 1.0 / count as real, MergeReward(x.board[a.first], r.cap), j), cell, e, j)
  {
    hide Merges, MergeReward, Mergeable;
    assert cell in FreeBelow(x, a, |x.board|);
    NoMergeLeft(AfterMerge(r, x.board, a)[cell := r.spawn[j].0], r.size);
    Share(r.spawn[j].1, |FreeBelow(x, a, |x.board|)|);
  }

  lemma MergeableSize(board: Board, n: nat, c: nat, d: nat)
    requires Mergeable(board, n, c, d)
    ensures c < |board| && d < |board|
  {
  }

  lemma Share(p: real, n: nat)
    requires n > 0
    ensures 1.0 / n as real * p * n as real == p
  {
  }
}
