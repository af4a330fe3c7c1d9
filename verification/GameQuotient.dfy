/** The canonical representative of a board's orbit, and the exact orbit quotient of the game: all
    hypotheses of the quotient theorems hold of the concrete group, canonicalizer and kernel. */
module GameQuotient {
  import opened D4
  import Lexicographic
  import opened G2048
  import opened Symmetry
  import opened QuotientValues
  import opened OrbitClosure
  import OrbitQuotient

  // ---- Canonicalization -------------------------------------------------------------------

  function ImageAt(board: Board, n: nat, i: nat): Board
    requires i < |ELEMENTS|
  {
    MoveBoard(board, n, ELEMENTS[i])
  }

  /** The first of the first `k` elements whose image is least. */
  function Best(board: Board, n: nat, k: nat): (i: nat)
    requires 0 < k <= |ELEMENTS|
    ensures i < k
  {
    if k == 1 then 0
    else
      var i := Best(board, n, k - 1);
      if Lexicographic.Leq(ImageAt(board, n, i), ImageAt(board, n, k - 1)) then i else k - 1
  }

  lemma {:induction false} BestIsLeast(board: Board, n: nat, k: nat, j: nat)
    requires j < k <= |ELEMENTS|
    ensures Lexicographic.Leq(ImageAt(board, n, Best(board, n, k)), ImageAt(board, n, j))
    ensures j < Best(board, n, k) ==> ImageAt(board, n, j) != ImageAt(board, n, Best(board, n, k))
  {
    hide ImageAt, Lexicographic.Leq;
    var last := ImageAt(board, n, k - 1);
    Lexicographic.Total(last, last);
    if k > 1 {
      var i := Best(board, n, k - 1);
      var least := ImageAt(board, n, i);
      Lexicographic.Total(least, last);
      if j < k - 1 {
        BestIsLeast(board, n, k - 1, j);
        if !Lexicographic.Leq(least, last) {
          Lexicographic.Transitive(last, least, ImageAt(board, n, j));
        }
      }
    }
  }

  function CanonicalElement(board: Board, n: nat): Element {
    ELEMENTS[Best(board, n, |ELEMENTS|)]
  }

  function CanonicalBoard(board: Board, n: nat): Board {
    MoveBoard(board, n, CanonicalElement(board, n))
  }

  function BoardCanonicalizer(n: nat): Canonicalizer<Element, Game> {
    Canonicalizer((x: Game) => Game(CanonicalBoard(x.board, n), x.failed), (x: Game) => CanonicalElement(x.board, n))
  }

  /** The representative is an image of the board, and against every image it is equal or has the
      smaller rank in the first cell where they differ. */
  lemma RepresentativeIsSmallest(board: Board, n: nat, g: Element)
    ensures var least, image := CanonicalBoard(board, n), MoveBoard(board, n, g);
            && |least| == |image| == |board|
            && (least == image || exists k: nat :: k < |board| && least[..k] == image[..k] && least[k] < image[k])
  {
    hide MoveBoard, Best, Lexicographic.Leq;
    var least, image := CanonicalBoard(board, n), MoveBoard(board, n, g);
    var i := Position(g);
    BestIsLeast(board, n, |ELEMENTS|, i);
    Lexicographic.LeqIff(least, image);
    if k: nat :| Lexicographic.SmallerAt(least, image, k) {
      assert k < |board| && least[..k] == image[..k] && least[k] < image[k];
    }
  }

  lemma Position(g: Element) returns (i: nat)
    ensures i < |ELEMENTS| && ELEMENTS[i] == g
  {
    AllElements(g);
    i :| 0 <= i < |ELEMENTS| && ELEMENTS[i] == g;
  }

  /** All images of a board have one representative. */
  lemma CanonicalInvariant(board: Board, n: nat, g: Element)
    ensures CanonicalBoard(MoveBoard(board, n, g), n) == CanonicalBoard(board, n)
  {
    hide Best, MoveBoard, Compose, Inverse, Lexicographic.Leq;
    var image := MoveBoard(board, n, g);
    var here, there := CanonicalElement(board, n), CanonicalElement(image, n);
    MoveBoardCompose(board, n, there, g);
    MoveBoardInverse(board, n, g);
    MoveBoardCompose(image, n, here, Inverse(g));
    var i := Position(Compose(there, g));
    var j := Position(Compose(here, Inverse(g)));
    BestIsLeast(board, n, |ELEMENTS|, i);
    BestIsLeast(image, n, |ELEMENTS|, j);
    Lexicographic.Total(CanonicalBoard(board, n), CanonicalBoard(image, n));
  }

  lemma CanonicalizerIsLawful(n: nat)
    ensures CanonicalizerLaws(BoardSymmetries(n), BoardCanonicalizer(n))
  {
    hide CanonicalBoard, MoveBoard, CanonicalElement;
    forall x: Game
      ensures CanonicalElement(x.board, n) in ELEMENTS
      ensures MoveBoard(x.board, n, CanonicalElement(x.board, n)) == CanonicalBoard(x.board, n)
    {
      AllElements(CanonicalElement(x.board, n));
      CanonicalImage(x.board, n);
    }
    forall g: Element, x: Game
      ensures CanonicalBoard(MoveBoard(x.board, n, g), n) == CanonicalBoard(x.board, n)
    {
      CanonicalInvariant(x.board, n, g);
    }
  }

  lemma CanonicalImage(board: Board, n: nat)
    ensures MoveBoard(board, n, CanonicalElement(board, n)) == CanonicalBoard(board, n)
  {
  }

  /** Two boards share their representative exactly when one is an image of the other. */
  lemma SameRepresentativeIffSameOrbit(a: Board, b: Board, n: nat)
    ensures CanonicalBoard(a, n) == CanonicalBoard(b, n) <==> exists g: Element :: MoveBoard(a, n, g) == b
  {
    hide MoveBoard, CanonicalElement, Compose, Inverse, CanonicalBoard;
    if CanonicalBoard(a, n) == CanonicalBoard(b, n) {
      var g, h := CanonicalElement(a, n), CanonicalElement(b, n);
      CanonicalImage(a, n);
      CanonicalImage(b, n);
      MoveBoardInverse(b, n, h);
      MoveBoardCompose(a, n, Inverse(h), g);
      assert MoveBoard(a, n, Compose(Inverse(h), g)) == b;
    }
    if g: Element :| MoveBoard(a, n, g) == b {
      CanonicalInvariant(a, n, g);
    }
  }

  /** The game's orbit quotient is exact, so every quotient policy has exactly the values of its
      lifted mixture and the quotient loses no optimum. */
  lemma GameQuotientIsExact(r: Rules, nodes: seq<Node<Game>>)
    requires SymmetricNodes(r.size, nodes) && HonestTerminalFlags(GameKernel(r), nodes) && ClosedGraph(GameKernel(r), nodes)
    ensures ExactQuotient(GameKernel(r), BoardSymmetries(r.size), nodes, BoardCanonicalizer(r.size))
  {
    hide SymmetricNodes, HonestTerminalFlags, ClosedGraph, GroupLaws, Automorphic, SymmetricGraph, CanonicalizerLaws;
    BoardSymmetriesAreAGroup(r.size);
    GamePassesRecomputation(r, nodes);
    PassedCheckIsSymmetric(GameKernel(r), BoardSymmetries(r.size), nodes);
    CanonicalizerIsLawful(r.size);
  }

  // ---- The enumerated graph ---------------------------------------------------------------

  /** A node list for a set of state-time pairs, flagged as the graph document flags them. */
  ghost predicate Lists(nodes: seq<Node<Game>>, pairs: Pairs<Game>) {
    && (forall v | v in nodes ::
          && (v.remaining, v.state) in pairs && v.failure == v.state.failed
          && (v.terminal <==> v.remaining == 0 || v.state.failed))
    && (forall p | p in pairs :: InGraph(nodes, p.0, p.1))
  }

  lemma {:induction false} ListPairs(pairs: Pairs<Game>) returns (nodes: seq<Node<Game>>)
    ensures Lists(nodes, pairs)
    decreases |pairs|
  {
    if pairs == {} {
      nodes := [];
    } else {
      var p :| p in pairs;
      var rest := ListPairs(pairs - {p});
      var v := Node(p.0, p.1, p.0 == 0 || p.1.failed, p.1.failed);
      nodes := rest + [v];
      forall q | q in pairs
        ensures InGraph(nodes, q.0, q.1)
      {
        if q == p {
          assert v in nodes;
        } else {
          var u :| u in rest && u.remaining == q.0 && u.state == q.1;
          assert u in nodes;
        }
      }
    }
  }

  /** The graph enumerated for any query of the game satisfies every hypothesis of the symmetry
      and quotient theorems. */
  lemma EnumeratedGraphIsSymmetric(r: Rules, initial: seq<(real, Game)>, horizon: nat, pairs: Pairs<Game>, nodes: seq<Node<Game>>)
    requires Complete(GameKernel(r), BoardSymmetries(r.size), initial, horizon, pairs) && Lists(nodes, pairs)
    ensures SymmetricNodes(r.size, nodes) && HonestTerminalFlags(GameKernel(r), nodes) && ClosedGraph(GameKernel(r), nodes)
  {
    hide MoveBoard, Law, Merges;
    var k, ga := GameKernel(r), BoardSymmetries(r.size);
    forall v, g: Element | v in nodes
      ensures InGraph(nodes, v.remaining, MoveGame(v.state, r.size, g))
    {
      AllElements(g);
      var p := (v.remaining, v.state);
      assert p in pairs && g in ga.elements;
      assert (p.0, ga.onState(g, p.1)) in pairs;
    }
    forall h: nat, x, a, i | h > 0 && InGraph(nodes, h, x) && !k.terminal(x) && a in k.actions(x) && 0 <= i < |k.step(x, a)|
      ensures InGraph(nodes, h - 1, k.step(x, a)[i].atom.next)
    {
      assert Expanded(k, (h, x), pairs);
      assert ActionExpanded(k, (h, x), a, pairs);
    }
  }

  /** For every query of the game: the recomputation passes on the enumerated graph, its orbit
      quotient is exact, and symmetric boards have the same achievable pairs. */
  lemma EveryQueryIsExact(r: Rules, initial: seq<(real, Game)>, horizon: nat, pairs: Pairs<Game>, nodes: seq<Node<Game>>)
    requires Complete(GameKernel(r), BoardSymmetries(r.size), initial, horizon, pairs) && Lists(nodes, pairs)
    ensures Automorphic(GameKernel(r), BoardSymmetries(r.size), nodes)
    ensures ExactQuotient(GameKernel(r), BoardSymmetries(r.size), nodes, BoardCanonicalizer(r.size))
    ensures forall g: Element, w: real -> real, h: nat, x, v {:trigger Achievable(GameKernel(r), nodes, w, h, MoveGame(x, r.size, g), v)} |
              (h, x) in pairs :: Achievable(GameKernel(r), nodes, w, h, MoveGame(x, r.size, g), v)
                                 <==> Achievable(GameKernel(r), nodes, w, h, x, v)
  {
    hide SymmetricNodes, HonestTerminalFlags, ClosedGraph, Automorphic, ExactQuotient, Achievable, OnFrontier, ConstrainedOptimum, Complete;
    EnumeratedGraphIsSymmetric(r, initial, horizon, pairs, nodes);
    GamePassesRecomputation(r, nodes);
    GameQuotientIsExact(r, nodes);
    forall g: Element, w: real -> real, h: nat, x, v | (h, x) in pairs
      ensures Achievable(GameKernel(r), nodes, w, h, MoveGame(x, r.size, g), v) <==> Achievable(GameKernel(r), nodes, w, h, x, v)
    {
      SymmetricBoardsPlayEqually(r, nodes, w, g, h, x);
    }
  }

  /** Planning with one canonical action per stabilizer orbit, the first in any fixed order, loses
      nothing against planning with every merge, for every query, weight and horizon. */
  lemma EveryQueryLosesNothing(
      r: Rules, initial: seq<(real, Game)>, horizon: nat, pairs: Pairs<Game>, nodes: seq<Node<Game>>,
      before: (Action, Action) -> bool, w: real -> real, h: nat)
    requires Complete(GameKernel(r), BoardSymmetries(r.size), initial, horizon, pairs) && Lists(nodes, pairs)
    requires OrbitQuotient.TotalOrder(before)
    ensures OptimaAgree(GameKernel(r), nodes, BoardCanonicalizer(r.size),
                        CanonicalLabels(GameKernel(r), BoardSymmetries(r.size), before), w, h)
  {
    hide SymmetricNodes, HonestTerminalFlags, ClosedGraph, ExactQuotient, OptimaAgree, Complete, OrbitQuotient.TotalOrder;
    EnumeratedGraphIsSymmetric(r, initial, horizon, pairs, nodes);
    GameQuotientIsExact(r, nodes);
    CanonicalActionsLoseNothing(GameKernel(r), BoardSymmetries(r.size), nodes, BoardCanonicalizer(r.size), before, w, h);
  }
}
