/** The alpha-beta variant of the search (boardtree.cpp:224-298) and its
    relation to plain minimax: inside the window the two agree, and outside
    it the pruned score lies on the same side of the window. Started from the
    widest window the pruned search returns the minimax score. */
module Pruning {
  import opened Consts
  import opened Board
  import opened MinimaxSpec

  /** The pruned search of a game tree in the window [alpha, beta]: a leaf's
      score at (0, 0) (boardtree.cpp:230-241), or the pruned scan. */
  function Prune(t: GameTree, alpha: int, beta: int): Move
    decreases t, 1
  {
    match t
    case Leaf(v) => Move(v, Coord(0, 0))
    case Node(p, _) => PruneScan(t, 0, alpha, beta, InitialEstimate(p), ILLEGAL_MOVE)
  }

  /** What one child's score does to the pruned loop: an illegal child is
      skipped; a counted one may improve the estimate and the best move, and
      then the mover's bound is checked against the other bound, whether or
      not the child improved anything. A cut returns from both loops, else
      the loop goes on with the tightened window (boardtree.cpp:258-292). */
  datatype Step = Skip | Cut(move: Move) | Next(alpha: int, beta: int, est: int, best: Move)

  function PruneStep(mover: Cell, score: int, at: Coord, alpha: int, beta: int, est: int, best: Move): Step {
    if score == ILLEGAL then Skip
    else
      var improved := Better(mover, score, est);
      var est' := if improved then score else est;
      var best' := if improved then Move(score, at) else best;
      if mover == X then
        if best'.score > beta then Cut(best')
        else Next(Max(best'.score, alpha), beta, est', best')
      else
        if best'.score < alpha then Cut(best')
        else Next(alpha, Min(best'.score, beta), est', best')
  }

  /** The double loop from branch k on (boardtree.cpp:254-294). */
  function PruneScan(t: GameTree, k: nat, alpha: int, beta: int, est: int, best: Move): Move
    requires t.Node? && k <= |t.kids|
    decreases t, 0, |t.kids| - k
  {
    if k == |t.kids| then best
    else match t.kids[k]
      case Illegal(_) => PruneScan(t, k + 1, alpha, beta, est, best)
      case Legal(at, sub) =>
        match PruneStep(t.mover, Prune(sub, alpha, beta).score, at, alpha, beta, est, best)
        case Skip => PruneScan(t, k + 1, alpha, beta, est, best)
        case Cut(m) => m
        case Next(a, b, e, m) => PruneScan(t, k + 1, a, b, e, m)
  }

  /** getOptimalMoveAlphaBeta's result for `b` at `depth` in the window
      [alpha, beta]. */
  function AlphaBeta(b: Board, depth: nat, alpha: int, beta: int): Move {
    Prune(Game(b, depth), alpha, beta)
  }

  /** The pruned score `r` agrees with the exact score `v` inside the window
      and falls on the same side of it outside. */
  predicate WindowAgrees(r: int, v: int, alpha: int, beta: int) {
    && (alpha <= v <= beta ==> r == v)
    && (v < alpha ==> r < alpha)
    && (beta < v ==> beta < r)
  }

  /** What the pruned search guarantees relative to the exact one. */
  predicate Agrees(r: int, v: int, alpha: int, beta: int) {
    && (r == ILLEGAL <==> v == ILLEGAL)
    && (r == ILLEGAL || InRange(r))
    && WindowAgrees(r, v, alpha, beta)
  }

  /** The pruned scan of a maximising node (estimate and best `estA`, `bestA`,
      current lower bound `alpha`) against the plain scan (`estM`, `bestM`),
      for a node first searched in the window [alpha0, beta]. Before the first
      counted child both are untouched; afterwards the pruned estimate equals
      the exact one whenever that one reaches alpha0, and stays below alpha0
      with it otherwise. */
  predicate MaxScanState(alpha0: int, alpha: int, beta: int, estA: int, bestA: Move, estM: int, bestM: Move) {
    || (&& bestA == ILLEGAL_MOVE && bestM == ILLEGAL_MOVE
        && estA == -INF && estM == -INF && alpha == alpha0)
    || (&& InRange(estA) && InRange(estM)
        && bestA.score == estA && bestM.score == estM
        && alpha == Max(alpha0, estA) && estA <= beta
        && Max(alpha0, estA) == Max(alpha0, estM)
        && (alpha0 <= estM ==> estA == estM)
        && (estM < alpha0 ==> estA < alpha0))
  }

  /** The mirror image for a minimising node and its upper bound. */
  predicate MinScanState(alpha: int, beta0: int, beta: int, estA: int, bestA: Move, estM: int, bestM: Move) {
    || (&& bestA == ILLEGAL_MOVE && bestM == ILLEGAL_MOVE
        && estA == INF && estM == INF && beta == beta0)
    || (&& InRange(estA) && InRange(estM)
        && bestA.score == estA && bestM.score == estM
        && beta == Min(beta0, estA) && alpha <= estA
        && Min(beta0, estA) == Min(beta0, estM)
        && (estM <= beta0 ==> estA == estM)
        && (beta0 < estM ==> beta0 < estA))
  }

  /** One child at a maximising node: its pruned score `rc` agrees with its
      exact score `vc` in the current window [alpha, beta]. Both scans skip
      it together; or the pruned scan cuts, and then the exact scan has
      taken the child too and its estimate lies above beta; or the state
      carries over to the next cell. */
  lemma MaxStep(alpha0: int, alpha: int, beta: int, estA: int, bestA: Move, estM: int, bestM: Move,
                rc: int, vc: int, at: Coord)
    requires alpha0 <= beta && MaxScanState(alpha0, alpha, beta, estA, bestA, estM, bestM)
    requires Agrees(rc, vc, alpha, beta) && (vc == ILLEGAL || InRange(vc))
    ensures var c := Consider(X, vc, at, estM, bestM);
      match PruneStep(X, rc, at, alpha, beta, estA, bestA)
      case Skip => c == Choice(estM, bestM)
      case Cut(m) => beta < m.score && InRange(m.score) && c.best.score == c.est != ILLEGAL && beta < c.est
      case Next(a, b, e, m) => MaxScanState(alpha0, a, b, e, m, c.est, c.best)
  {
  }

  /** The mirror image of MaxStep at a minimising node. */
  lemma MinStep(alpha: int, beta0: int, beta: int, estA: int, bestA: Move, estM: int, bestM: Move,
                p: Cell, rc: int, vc: int, at: Coord)
    requires p != X
    requires alpha <= beta0 && MinScanState(alpha, beta0, beta, estA, bestA, estM, bestM)
    requires Agrees(rc, vc, alpha, beta) && (vc == ILLEGAL || InRange(vc))
    ensures var c := Consider(p, vc, at, estM, bestM);
      match PruneStep(p, rc, at, alpha, beta, estA, bestA)
      case Skip => c == Choice(estM, bestM)
      case Cut(m) => m.score < alpha && InRange(m.score) && c.best.score == c.est != ILLEGAL && c.est < alpha
      case Next(a, b, e, m) => MinScanState(a, beta0, b, e, m, c.est, c.best)
  {
  }

  /** At the end of the scan the state gives the agreement. */
  lemma MaxFinish(alpha0: int, alpha: int, beta: int, estA: int, bestA: Move, estM: int, bestM: Move)
    requires alpha0 <= beta && MaxScanState(alpha0, alpha, beta, estA, bestA, estM, bestM)
    ensures Agrees(bestA.score, bestM.score, alpha0, beta)
  {
  }

  lemma MinFinish(alpha: int, beta0: int, beta: int, estA: int, bestA: Move, estM: int, bestM: Move)
    requires alpha <= beta0 && MinScanState(alpha, beta0, beta, estA, bestA, estM, bestM)
    ensures Agrees(bestA.score, bestM.score, alpha, beta0)
  {
  }

  /** The pruned search of a bounded tree agrees with minimax in every
      window it can be given. */
  lemma {:induction false} PruneWindow(t: GameTree, alpha: int, beta: int)
    requires alpha <= beta && Bounded(t)
    ensures Agrees(Prune(t, alpha, beta).score, Search(t).score, alpha, beta)
    decreases t, 1
  {
    match t
    case Leaf(_) =>
    case Node(p, _) =>
      if p == X {
        PruneScanMax(t, 0, alpha, alpha, beta, -INF, ILLEGAL_MOVE, -INF, ILLEGAL_MOVE);
      } else {
        PruneScanMin(t, 0, alpha, beta, beta, INF, ILLEGAL_MOVE, INF, ILLEGAL_MOVE);
      }
  }

  lemma {:induction false} PruneScanMax(t: GameTree, k: nat, alpha0: int, alpha: int, beta: int,
                                        estA: int, bestA: Move, estM: int, bestM: Move)
    requires t.Node? && k <= |t.kids| && t.mover == X && Bounded(t)
    requires alpha0 <= beta && MaxScanState(alpha0, alpha, beta, estA, bestA, estM, bestM)
    ensures Agrees(PruneScan(t, k, alpha, beta, estA, bestA).score, Scan(t, k, estM, bestM).score, alpha0, beta)
    decreases t, 0, |t.kids| - k, 1
  {
    if k == |t.kids| {
      MaxFinish(alpha0, alpha, beta, estA, bestA, estM, bestM);
    } else {
      match t.kids[k]
      case Illegal(_) =>
        PruneScanMax(t, k + 1, alpha0, alpha, beta, estA, bestA, estM, bestM);
      case Legal(at, sub) =>
        PruneScanMaxCounted(t, k, alpha0, alpha, beta, estA, bestA, estM, bestM);
    }
  }

  /** A counted cell of the scan in PruneScanMax: one step of each scan, then
      the rest of the row. */
  lemma {:induction false} PruneScanMaxCounted(t: GameTree, k: nat, alpha0: int, alpha: int, beta: int,
                                               estA: int, bestA: Move, estM: int, bestM: Move)
    requires t.Node? && k < |t.kids| && t.kids[k].Legal? && t.mover == X && Bounded(t)
    requires alpha0 <= beta && MaxScanState(alpha0, alpha, beta, estA, bestA, estM, bestM)
    ensures Agrees(PruneScan(t, k, alpha, beta, estA, bestA).score, Scan(t, k, estM, bestM).score, alpha0, beta)
    decreases t, 0, |t.kids| - k, 0
  {
    var at, sub := t.kids[k].at, t.kids[k].sub;
    PruneWindow(sub, alpha, beta);
    SearchInRange(sub);
    var rc := Prune(sub, alpha, beta).score;
    var vc := Search(sub).score;
    MaxStep(alpha0, alpha, beta, estA, bestA, estM, bestM, rc, vc, at);
    var c := Consider(X, vc, at, estM, bestM);
    match PruneStep(X, rc, at, alpha, beta, estA, bestA)
    case Skip => PruneScanMax(t, k + 1, alpha0, alpha, beta, estA, bestA, estM, bestM);
    case Cut(m) => ScanKeepsBest(t, k + 1, c.est, c.best);
    case Next(a, b, e, m) => PruneScanMax(t, k + 1, alpha0, a, b, e, m, c.est, c.best);
  }

  lemma {:induction false} PruneScanMin(t: GameTree, k: nat, alpha: int, beta0: int, beta: int,
                                        estA: int, bestA: Move, estM: int, bestM: Move)
    requires t.Node? && k <= |t.kids| && t.mover != X && Bounded(t)
    requires alpha <= beta0 && MinScanState(alpha, beta0, beta, estA, bestA, estM, bestM)
    ensures Agrees(PruneScan(t, k, alpha, beta, estA, bestA).score, Scan(t, k, estM, bestM).score, alpha, beta0)
    decreases t, 0, |t.kids| - k, 1
  {
    if k == |t.kids| {
      MinFinish(alpha, beta0, beta, estA, bestA, estM, bestM);
    } else {
      match t.kids[k]
      case Illegal(_) =>
        PruneScanMin(t, k + 1, alpha, beta0, beta, estA, bestA, estM, bestM);
      case Legal(at, sub) =>
        PruneScanMinCounted(t, k, alpha, beta0, beta, estA, bestA, estM, bestM);
    }
  }

  /** A counted cell of the scan in PruneScanMin: one step of each scan, then
      the rest of the row. */
  lemma {:induction false} PruneScanMinCounted(t: GameTree, k: nat, alpha: int, beta0: int, beta: int,
                                               estA: int, bestA: Move, estM: int, bestM: Move)
    requires t.Node? && k < |t.kids| && t.kids[k].Legal? && t.mover != X && Bounded(t)
    requires alpha <= beta0 && MinScanState(alpha, beta0, beta, estA, bestA, estM, bestM)
    ensures Agrees(PruneScan(t, k, alpha, beta, estA, bestA).score, Scan(t, k, estM, bestM).score, alpha, beta0)
    decreases t, 0, |t.kids| - k, 0
  {
    var at, sub := t.kids[k].at, t.kids[k].sub;
    PruneWindow(sub, alpha, beta);
    SearchInRange(sub);
    var rc := Prune(sub, alpha, beta).score;
    var vc := Search(sub).score;
    MinStep(alpha, beta0, beta, estA, bestA, estM, bestM, t.mover, rc, vc, at);
    var c := Consider(t.mover, vc, at, estM, bestM);
    match PruneStep(t.mover, rc, at, alpha, beta, estA, bestA)
    case Skip => PruneScanMin(t, k + 1, alpha, beta0, beta, estA, bestA, estM, bestM);
    case Cut(m) => ScanKeepsBest(t, k + 1, c.est, c.best);
    case Next(a, b, e, m) => PruneScanMin(t, k + 1, alpha, beta0, b, e, m, c.est, c.best);
  }

  /** On boards with a bounded weight grid the pruned search agrees with
      minimax in every window. */
  lemma AlphaBetaWindow(b: Board, depth: nat, alpha: int, beta: int)
    requires alpha <= beta && WeightsBounded(b.weights)
    ensures Agrees(AlphaBeta(b, depth, alpha, beta).score, Minimax(b, depth).score, alpha, beta)
  {
    GameBounded(b, depth);
    PruneWindow(Game(b, depth), alpha, beta);
  }

  /** Started from a window containing every genuine score, as a caller passing
      -INF and INF does, the pruned search returns the minimax score. */
  lemma AlphaBetaMatchesMinimax(b: Board, depth: nat, alpha: int, beta: int)
    requires WeightsBounded(b.weights) && alpha <= -INF && INF <= beta
    ensures AlphaBeta(b, depth, alpha, beta).score == Minimax(b, depth).score
  {
    AlphaBetaWindow(b, depth, alpha, beta);
    MinimaxInRange(b, depth);
  }
}
