/** Depth-bounded minimax: the value getOptimalMove computes
    (boardtree.cpp:99-174), stated without the tree's nodes and the table.
    The positions the search visits form a game tree. X maximises, every
    other mover minimises; children are visited in row-major order and only a
    strictly better child replaces the best move, so ties keep the first. */
module MinimaxSpec {
  import opened Consts
  import opened Board

  /** What a search visits: a leaf holds the score of a position where the
      search stops, an inner node the mover and one branch per cell in
      row-major order. */
  datatype GameTree = Leaf(value: int) | Node(mover: Cell, kids: seq<Branch>)

  /** The move at `at`: refused by play, or leading to a subtree. */
  datatype Branch = Illegal(at: Coord) | Legal(at: Coord, sub: GameTree)

  /** `a` is strictly better than `b` for the mover `p` (boardtree.cpp:154-165). */
  predicate Better(p: Cell, a: int, b: int) {
    if p == X then a > b else a < b
  }

  /** The running estimate a search starts from (boardtree.cpp:135). */
  function InitialEstimate(p: Cell): int {
    if p == X then -INF else INF
  }

  /** The tree searched from `b`, `depth` plies deep: the search stops at
      depth 0 and at a finished board with that board's score
      (boardtree.cpp:114-119), and otherwise tries every cell
      (boardtree.cpp:140-146). */
  function Game(b: Board, depth: nat): GameTree
    decreases depth, 1
  {
    if depth == 0 || IsFinished(b) then Leaf(Score(b))
    else Node(b.curPlayer, seq(CELLS, k requires 0 <= k < CELLS => BranchOf(b, depth, k)))
  }

  /** The branch for cell k: the child is a copy of the board played there
      (boardtree.cpp:142-146, through getSubTree). */
  function BranchOf(b: Board, depth: nat, k: nat): Branch
    requires 0 < depth && k < CELLS
    decreases depth, 0
  {
    var p := Play(b, CoordOf(k));
    if p.ok then Legal(CoordOf(k), Game(p.board, depth - 1)) else Illegal(CoordOf(k))
  }

  /** The score and move a game tree is worth: a leaf's score at (0, 0), or
      the choice of the scan over the branches. */
  function Search(t: GameTree): Move
    decreases t, 1
  {
    match t
    case Leaf(v) => Move(v, Coord(0, 0))
    case Node(p, _) => Scan(t, 0, InitialEstimate(p), ILLEGAL_MOVE)
  }

  /** The running estimate and the best move so far. */
  datatype Choice = Choice(est: int, best: Move)

  /** A child's score at `at` replaces the choice exactly when it is not the
      sentinel ILLEGAL and strictly beats the estimate (boardtree.cpp:146-165). */
  function Consider(p: Cell, score: int, at: Coord, est: int, best: Move): Choice {
    if score != ILLEGAL && Better(p, score, est) then Choice(score, Move(score, at)) else Choice(est, best)
  }

  /** The double loop over the branches from k on, with the running estimate
      and the best move so far (boardtree.cpp:140-168). */
  function Scan(t: GameTree, k: nat, est: int, best: Move): Move
    requires t.Node? && k <= |t.kids|
    decreases t, 0, |t.kids| - k
  {
    if k == |t.kids| then best
    else match t.kids[k]
      case Illegal(_) => Scan(t, k + 1, est, best)
      case Legal(at, sub) =>
        var c := Consider(t.mover, Search(sub).score, at, est, best);
        Scan(t, k + 1, c.est, c.best)
  }

  /** getOptimalMove's result for `b` at `depth`, leaving the table aside. */
  function Minimax(b: Board, depth: nat): Move {
    Search(Game(b, depth))
  }

  /** The tree of an unfinished board searched at a positive depth has the
      mover at its root and, for each cell, the branch of that cell. */
  lemma GameShape(b: Board, depth: nat)
    requires 0 < depth && !IsFinished(b)
    ensures Game(b, depth).Node? && Game(b, depth).mover == b.curPlayer
    ensures |Game(b, depth).kids| == CELLS
    ensures forall k :: 0 <= k < CELLS ==> Game(b, depth).kids[k] == BranchOf(b, depth, k)
  {
  }

  // ---------------------------------------------------------------------
  // What the scan chooses

  /** What a branch contributes to the loop: its subtree's score, or the
      sentinel ILLEGAL for an illegal move. A branch counts exactly when its
      value is not the sentinel. */
  function BranchValue(br: Branch): int {
    match br
    case Illegal(_) => ILLEGAL
    case Legal(_, sub) => Search(sub).score
  }

  function Values(t: GameTree): (vals: seq<int>)
    requires t.Node?
    ensures |vals| == |t.kids|
  {
    seq(|t.kids|, j requires 0 <= j < |t.kids| => BranchValue(t.kids[j]))
  }

  function Ats(t: GameTree): (ats: seq<Coord>)
    requires t.Node?
    ensures |ats| == |t.kids|
  {
    seq(|t.kids|, j requires 0 <= j < |t.kids| => t.kids[j].at)
  }

  /** `best` is the choice of mover `p` among the counted values below
      position `limit`: the illegal move when none beats the initial
      estimate, otherwise the first position with the best value, at its
      coordinate. */
  predicate ChosenIn(vals: seq<int>, ats: seq<Coord>, p: Cell, limit: nat, best: Move)
    requires limit <= |vals| == |ats|
  {
    || (&& best == ILLEGAL_MOVE
        && forall j :: 0 <= j < limit && vals[j] != ILLEGAL ==> !Better(p, vals[j], InitialEstimate(p)))
    || (exists i :: 0 <= i < limit && FirstBestAt(vals, ats, p, limit, i, best))
  }

  /** Position i is counted, carries `best`, beats the initial estimate, is
      beaten by no counted position below `limit` and strictly beats every
      counted position before it. */
  predicate FirstBestAt(vals: seq<int>, ats: seq<Coord>, p: Cell, limit: nat, i: nat, best: Move)
    requires i < limit <= |vals| == |ats|
  {
    && vals[i] != ILLEGAL
    && best == Move(vals[i], ats[i])
    && Better(p, best.score, InitialEstimate(p))
    && (forall j :: 0 <= j < limit && vals[j] != ILLEGAL ==> !Better(p, vals[j], best.score))
    && (forall j :: 0 <= j < i && vals[j] != ILLEGAL ==> Better(p, best.score, vals[j]))
  }

  /** A counted position that beats the estimate becomes the choice. */
  lemma ChosenTake(vals: seq<int>, ats: seq<Coord>, p: Cell, k: nat, est: int, best: Move)
    requires k < |vals| == |ats|
    requires ChosenIn(vals, ats, p, k, best)
    requires est == if best == ILLEGAL_MOVE then InitialEstimate(p) else best.score
    requires vals[k] != ILLEGAL && Better(p, vals[k], est)
    ensures ChosenIn(vals, ats, p, k + 1, Move(vals[k], ats[k]))
  {
    if best != ILLEGAL_MOVE {
      var i0 :| 0 <= i0 < k && FirstBestAt(vals, ats, p, k, i0, best);
    }
    assert FirstBestAt(vals, ats, p, k + 1, k, Move(vals[k], ats[k]));
  }

  /** Any other position leaves the choice as it was. */
  lemma ChosenKeep(vals: seq<int>, ats: seq<Coord>, p: Cell, k: nat, est: int, best: Move)
    requires k < |vals| == |ats|
    requires ChosenIn(vals, ats, p, k, best)
    requires est == if best == ILLEGAL_MOVE then InitialEstimate(p) else best.score
    requires !(vals[k] != ILLEGAL && Better(p, vals[k], est))
    ensures ChosenIn(vals, ats, p, k + 1, best)
  {
    if best != ILLEGAL_MOVE {
      var i0 :| 0 <= i0 < k && FirstBestAt(vals, ats, p, k, i0, best);
      assert FirstBestAt(vals, ats, p, k + 1, i0, best);
    }
  }

  lemma {:induction false} ScanChooses(t: GameTree, k: nat, est: int, best: Move)
    requires t.Node? && k <= |t.kids|
    requires ChosenIn(Values(t), Ats(t), t.mover, k, best)
    requires est == if best == ILLEGAL_MOVE then InitialEstimate(t.mover) else best.score
    ensures ChosenIn(Values(t), Ats(t), t.mover, |t.kids|, Scan(t, k, est, best))
    decreases |t.kids| - k
  {
    if k < |t.kids| {
      var v := Values(t)[k];
      var at := Ats(t)[k];
      if v != ILLEGAL && Better(t.mover, v, est) {
        ChosenTake(Values(t), Ats(t), t.mover, k, est, best);
        ScanChooses(t, k + 1, v, Move(v, at));
      } else {
        ChosenKeep(Values(t), Ats(t), t.mover, k, est, best);
        ScanChooses(t, k + 1, est, best);
      }
    }
  }

  /** What cell k contributes on a board: the child's score when the move
      is legal, the sentinel ILLEGAL when it is not. */
  function Outcome(b: Board, depth: nat, k: nat): int
    requires 0 < depth && k < CELLS
  {
    var p := Play(b, CoordOf(k));
    if p.ok then Minimax(p.board, depth - 1).score else ILLEGAL
  }

  /** The outcomes of all cells in row-major order. */
  function Outcomes(b: Board, depth: nat): (vals: seq<int>)
    requires 0 < depth
    ensures |vals| == CELLS
  {
    seq(CELLS, k requires 0 <= k < CELLS => Outcome(b, depth, k))
  }

  /** All coordinates in row-major order. */
  function RowMajor(): (ats: seq<Coord>)
    ensures |ats| == CELLS
  {
    seq(CELLS, k requires 0 <= k < CELLS => CoordOf(k))
  }

  /** getOptimalMove's choice on an unfinished board, searched at depth > 0:
      the first cell in row-major order whose child has the best score for
      the mover, or the illegal move when no child beats the initial estimate
      (boardtree.cpp:135-168). */
  lemma MinimaxChoosesFirstBest(b: Board, depth: nat)
    requires 0 < depth && !IsFinished(b)
    ensures ChosenIn(Outcomes(b, depth), RowMajor(), b.curPlayer, CELLS, Minimax(b, depth))
  {
    var t := Game(b, depth);
    GameShape(b, depth);
    assert Values(t) == Outcomes(b, depth);
    assert Ats(t) == RowMajor();
    ScanChooses(t, 0, InitialEstimate(b.curPlayer), ILLEGAL_MOVE);
  }

  // ---------------------------------------------------------------------
  // Searching past the end of the game

  /** Every line of play ends within Empties(b) moves, so any two depths at
      least that large give the same tree. */
  lemma {:induction false} GameBeyondHorizon(b: Board, d1: nat, d2: nat)
    requires b.curPlayer != Empty && Empties(b) <= d1 && Empties(b) <= d2
    ensures Game(b, d1) == Game(b, d2)
    decreases Empties(b)
  {
    if d1 == 0 || d2 == 0 {
      IsFullMeans(b);
      assert IsFinished(b);
    } else if !IsFinished(b) {
      forall k | 0 <= k < CELLS
        ensures BranchOf(b, d1, k) == BranchOf(b, d2, k)
      {
        var p := Play(b, CoordOf(k));
        if p.ok {
          PlayFillsOne(b, CoordOf(k));
          GameBeyondHorizon(p.board, d1 - 1, d2 - 1);
        }
      }
      assert Game(b, d1).kids == Game(b, d2).kids;
    }
  }

  /** Searches deeper than the number of empty cells all agree. */
  lemma MinimaxBeyondHorizon(b: Board, d1: nat, d2: nat)
    requires b.curPlayer != Empty && Empties(b) <= d1 && Empties(b) <= d2
    ensures Minimax(b, d1) == Minimax(b, d2)
  {
    GameBeyondHorizon(b, d1, d2);
  }

  // ---------------------------------------------------------------------
  // The range of the result

  /** Every leaf score lies strictly inside (-INF, INF). */
  predicate Bounded(t: GameTree)
    decreases t
  {
    match t
    case Leaf(v) => InRange(v)
    case Node(_, kids) => forall j :: 0 <= j < |kids| ==> kids[j].Legal? ==> Bounded(kids[j].sub)
  }

  /** A board with a bounded weight grid has a bounded game tree: play keeps
      the weights. */
  lemma {:induction false} GameBounded(b: Board, depth: nat)
    requires WeightsBounded(b.weights)
    ensures Bounded(Game(b, depth))
    decreases depth
  {
    if depth == 0 || IsFinished(b) {
      ScoreInRange(b);
    } else {
      forall k | 0 <= k < CELLS
        ensures BranchOf(b, depth, k).Legal? ==> Bounded(BranchOf(b, depth, k).sub)
      {
        var p := Play(b, CoordOf(k));
        if p.ok {
          GameBounded(p.board, depth - 1);
        }
      }
    }
  }

  /** The value of a bounded tree is a genuine score or the illegal one. */
  lemma {:induction false} SearchInRange(t: GameTree)
    requires Bounded(t)
    ensures Search(t).score == ILLEGAL || InRange(Search(t).score)
    decreases t, 1
  {
    if t.Node? {
      ScanInRange(t, 0, InitialEstimate(t.mover), ILLEGAL_MOVE);
    }
  }

  lemma {:induction false} ScanInRange(t: GameTree, k: nat, est: int, best: Move)
    requires t.Node? && Bounded(t) && k <= |t.kids|
    requires best.score == ILLEGAL || InRange(best.score)
    ensures Scan(t, k, est, best).score == ILLEGAL || InRange(Scan(t, k, est, best).score)
    decreases t, 0, |t.kids| - k
  {
    if k < |t.kids| {
      match t.kids[k]
      case Illegal(_) =>
        ScanInRange(t, k + 1, est, best);
      case Legal(at, sub) =>
        SearchInRange(sub);
        var c := Consider(t.mover, Search(sub).score, at, est, best);
        ScanInRange(t, k + 1, c.est, c.best);
    }
  }

  /** With a bounded weight grid the search yields the illegal score or a
      genuine one. */
  lemma MinimaxInRange(b: Board, depth: nat)
    requires WeightsBounded(b.weights)
    ensures Minimax(b, depth).score == ILLEGAL || InRange(Minimax(b, depth).score)
  {
    GameBounded(b, depth);
    SearchInRange(Game(b, depth));
  }

  /** Once a move is chosen the scan only ever improves on it. */
  lemma {:induction false} ScanKeepsBest(t: GameTree, k: nat, est: int, best: Move)
    requires t.Node? && k <= |t.kids| && best.score == est && est != ILLEGAL
    ensures var r := Scan(t, k, est, best);
      r.score != ILLEGAL && (r.score == est || Better(t.mover, r.score, est))
    decreases |t.kids| - k
  {
    if k < |t.kids| {
      match t.kids[k]
      case Illegal(_) =>
        ScanKeepsBest(t, k + 1, est, best);
      case Legal(at, sub) =>
        var c := Consider(t.mover, Search(sub).score, at, est, best);
        ScanKeepsBest(t, k + 1, c.est, c.best);
    }
  }
}
