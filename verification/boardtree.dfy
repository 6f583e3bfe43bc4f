/** The search tree BoardTree (boardtree.cpp): a node owns its board and one
    slot per cell, built lazily by getSubTree. The memoised search threads
    the transposition table through the loop, the pruned search does not
    touch it. Both are proved to compute the values of the game-tree
    searches of MinimaxSpec and Pruning. */
module BoardTree {
  import opened Consts
  import opened BoardId
  import opened Board
  import opened MinimaxSpec
  import opened Pruning
  import opened HashTable

  /** A BoardTree: empty (a null root), or a node with its board and the
      subtrees of the N x N moves, stored row-major. */
  datatype Tree = Nil | BoardNode(board: Board, subTrees: seq<Tree>)

  /** A freshly built node: no move explored yet (boardtree.cpp:10-13). */
  function NewTree(b: Board): (t: Tree)
    ensures t.BoardNode? && t.board == b && |t.subTrees| == CELLS
    ensures forall k :: 0 <= k < CELLS ==> t.subTrees[k] == Nil
  {
    BoardNode(b, seq(CELLS, _ => Nil))
  }

  /** Every node has one slot per cell, and a built slot holds the board its
      move leads to. */
  predicate WellFormed(t: Tree)
    decreases t, 0
  {
    match t
    case Nil => true
    case BoardNode(b, subs) =>
      && |subs| == CELLS
      && forall k :: 0 <= k < CELLS ==> Slot(b, k, subs[k])
  }

  /** Slot k of a node with board `b` is empty, or built from the legal move
      at cell k and itself well formed. */
  predicate Slot(b: Board, k: nat, sub: Tree)
    requires k < CELLS
    decreases sub, 1
  {
    sub.BoardNode? ==>
      && Play(b, CoordOf(k)).ok
      && sub.board == Play(b, CoordOf(k)).board
      && WellFormed(sub)
  }

  // ---------------------------------------------------------------------
  // BoardTree::getSubTree

  /** The tree after the call and the subtree the call returns a reference to. */
  datatype Got = Got(tree: Tree, sub: Tree)

  /** getSubTree (boardtree.cpp:25-55). The coordinate must be on the board:
      the source indexes its subtree array with it before playing. */
  function GetSubTree(t: Tree, c: Coord): (r: Got)
    requires InBounds(c) && WellFormed(t)
    ensures t.Nil? ==> r == Got(Nil, Nil)
    ensures t.BoardNode? ==>
      && r.tree.BoardNode? && r.tree.board == t.board
      && |r.tree.subTrees| == CELLS
      && r.tree.subTrees[Index(c)] == r.sub
      && forall j :: 0 <= j < CELLS && j != Index(c) ==> r.tree.subTrees[j] == t.subTrees[j]
    ensures t.BoardNode? ==> (r.sub.Nil? <==> !Play(t.board, c).ok)
    ensures t.BoardNode? && r.sub.BoardNode? ==> r.sub.board == Play(t.board, c).board
    ensures t.BoardNode? && t.subTrees[Index(c)].BoardNode? ==> r == Got(t, t.subTrees[Index(c)])
    ensures WellFormed(r.tree) && WellFormed(r.sub)
  {
    if t.Nil? then Got(Nil, Nil)
    else
      var k := Index(c);
      var p := Play(t.board, c);
      assert Slot(t.board, k, t.subTrees[k]);
      if !p.ok then
        Got(t.(subTrees := t.subTrees[k := Nil]), Nil)
      else if t.subTrees[k].Nil? then
        var s := NewTree(p.board);
        assert forall j :: 0 <= j < CELLS ==> Slot(p.board, j, s.subTrees[j]);
        Got(t.(subTrees := t.subTrees[k := s]), s)
      else
        Got(t, t.subTrees[k])
  }

  /** Asking twice for the same subtree builds it at most once. */
  lemma GetSubTreeIdempotent(t: Tree, c: Coord)
    requires InBounds(c) && WellFormed(t)
    ensures GetSubTree(GetSubTree(t, c).tree, c) == GetSubTree(t, c)
  {
  }

  /** After the search of slot k, the node takes the searched subtree back:
      the search ran on the subtree in place. */
  function PutBack(t: Tree, k: nat, sub: Tree): (r: Tree)
    requires t.BoardNode? && WellFormed(t) && k < CELLS
    requires Slot(t.board, k, sub)
    ensures r.BoardNode? && r.board == t.board && WellFormed(r)
    ensures r.subTrees == t.subTrees[k := sub]
  {
    t.(subTrees := t.subTrees[k := sub])
  }

  // ---------------------------------------------------------------------
  // BoardTree::getOptimalMove

  /** The result of the memoised search, with the tree and the table after it. */
  datatype Found = Found(move: Move, tree: Tree, table: Table)

  /** getOptimalMove (boardtree.cpp:99-174), with the table an explicit input
      and output. A stored move counts as a hit only when its score is not
      ILLEGAL; a miss searches the children and stores the result, even the
      illegal move, at the node's id and depth. */
  function OptimalMove(t: Tree, depth: nat, table: Table): (r: Found)
    requires WellFormed(t) && Valid(table)
    ensures Valid(r.table) && WellFormed(r.tree)
    ensures t.Nil? ==> r.tree == Nil
    ensures t.BoardNode? ==> r.tree.BoardNode? && r.tree.board == t.board
    decreases depth, 1
  {
    if t.Nil? then Found(ILLEGAL_MOVE, t, table)
    else if depth == 0 || IsFinished(t.board) then Found(Move(Score(t.board), Coord(0, 0)), t, table)
    else
      var hashed := GetHashedMove(table, t.board.id, depth);
      if hashed.score != ILLEGAL then Found(hashed, t, table)
      else
        var s := OptimalScan(t, depth, 0, InitialEstimate(t.board.curPlayer), ILLEGAL_MOVE, table);
        Found(s.move, s.tree, UpdateTable(s.table, t.board.id, depth, s.move))
  }

  /** What getOptimalMove does with the tree and the table: an empty tree,
      depth 0 and a finished board touch neither; a hit returns the stored
      move and expands nothing; a miss leaves an entry for the node's id
      searched at least as deep as asked. */
  lemma OptimalMoveTable(t: Tree, depth: nat, table: Table)
    requires WellFormed(t) && Valid(table)
    ensures t.Nil? ==> OptimalMove(t, depth, table) == Found(ILLEGAL_MOVE, Nil, table)
    ensures t.BoardNode? && (depth == 0 || IsFinished(t.board)) ==>
      OptimalMove(t, depth, table) == Found(Move(Score(t.board), Coord(0, 0)), t, table)
    ensures t.BoardNode? && depth > 0 && !IsFinished(t.board) ==>
      var hashed := GetHashedMove(table, t.board.id, depth);
      var r := OptimalMove(t, depth, table);
      && (hashed.score != ILLEGAL ==> r == Found(hashed, t, table))
      && (hashed.score == ILLEGAL ==>
            t.board.id in MapOf(r.table) && MapOf(r.table)[t.board.id].depth >= depth)
  {
  }

  /** The double loop of getOptimalMove from cell k on (boardtree.cpp:140-168). */
  function OptimalScan(t: Tree, depth: nat, k: nat, est: int, best: Move, table: Table): (r: Found)
    requires t.BoardNode? && WellFormed(t) && Valid(table) && 0 < depth && k <= CELLS
    ensures Valid(r.table) && WellFormed(r.tree)
    ensures r.tree.BoardNode? && r.tree.board == t.board
    decreases depth, 0, CELLS - k
  {
    if k == CELLS then Found(best, t, table)
    else
      var g := GetSubTree(t, CoordOf(k));
      if g.sub.Nil? then OptimalScan(g.tree, depth, k + 1, est, best, table)
      else
        var child := OptimalMove(g.sub, depth - 1, table);
        var t' := PutBack(g.tree, k, child.tree);
        var c := Consider(t.board.curPlayer, child.move.score, CoordOf(k), est, best);
        OptimalScan(t', depth, k + 1, c.est, c.best, child.table)
  }

  // ---------------------------------------------------------------------
  // What a miss stores

  /** The table holds the same entry for `id` before and after. */
  predicate SameEntry(before: Table, after: Table, id: nat) {
    && (id in MapOf(before) <==> id in MapOf(after))
    && (id in MapOf(before) ==> MapOf(after)[id] == MapOf(before)[id])
  }

  lemma SameEntryTrans(a: Table, b: Table, c: Table, id: nat)
    requires SameEntry(a, b, id) && SameEntry(b, c, id)
    ensures SameEntry(a, c, id)
  {
  }

  /** No reachable position with at most `bound` empty cells has the id. */
  ghost predicate Unreached(id: nat, w: Weights, bound: int) {
    forall c: Board :: Reachable(c, w) && Empties(c) <= bound ==> c.id != id
  }

  /** A position's id belongs to no reachable position with fewer empty
      cells: the id encodes the whole grid. */
  lemma OwnIdUnreached(b: Board, w: Weights)
    requires Reachable(b, w)
    ensures Unreached(b.id, w, Empties(b) - 1)
  {
    forall c: Board | Reachable(c, w) && Empties(c) <= Empties(b) - 1
      ensures c.id != b.id
    {
      if c.id == b.id {
        IdInjective(c.cells, b.cells);
      }
    }
  }

  /** The memoised search of a reachable position stores only at the ids of
      the positions it reaches, each with at most as many empty cells as the
      position searched; every other entry is left as it was. */
  lemma {:induction false} SearchKeepsEntry(t: Tree, depth: nat, table: Table, w: Weights, id: nat, bound: int)
    requires WellFormed(t) && t.BoardNode? && Valid(table) && Reachable(t.board, w)
    requires Empties(t.board) <= bound && Unreached(id, w, bound)
    ensures SameEntry(table, OptimalMove(t, depth, table).table, id)
    decreases depth, 1
  {
    var b := t.board;
    if depth > 0 && !IsFinished(b) && GetHashedMove(table, b.id, depth).score == ILLEGAL {
      assert b.id != id;
      ScanKeepsEntry(t, depth, 0, InitialEstimate(b.curPlayer), ILLEGAL_MOVE, table, w, id, bound);
    }
  }

  /** The loop of getOptimalMove searches only children, each with one empty
      cell fewer than the node. */
  lemma {:induction false} ScanKeepsEntry(t: Tree, depth: nat, k: nat, est: int, best: Move, table: Table,
                                          w: Weights, id: nat, bound: int)
    requires t.BoardNode? && WellFormed(t) && Valid(table) && 0 < depth && k <= CELLS
    requires Reachable(t.board, w) && Empties(t.board) <= bound + 1 && Unreached(id, w, bound)
    ensures SameEntry(table, OptimalScan(t, depth, k, est, best, table).table, id)
    decreases depth, 0, CELLS - k, 1
  {
    if k < CELLS {
      var got := GetSubTree(t, CoordOf(k));
      if got.sub.Nil? {
        ScanKeepsEntry(got.tree, depth, k + 1, est, best, table, w, id, bound);
      } else {
        ChildKeepsEntry(t.board, CoordOf(k), got.sub, depth - 1, table, w, id, bound);
        var child := OptimalMove(got.sub, depth - 1, table);
        var t' := PutBack(got.tree, k, child.tree);
        var c := Consider(t.board.curPlayer, child.move.score, CoordOf(k), est, best);
        var r := OptimalScan(t', depth, k + 1, c.est, c.best, child.table);
        assert OptimalScan(t, depth, k, est, best, table) == r;
        ScanKeepsEntry(t', depth, k + 1, c.est, c.best, child.table, w, id, bound);
        SameEntryTrans(table, child.table, r.table, id);
      }
    }
  }

  /** A built slot's search keeps the entry: its position has one empty cell
      fewer than the node's. */
  lemma {:induction false} ChildKeepsEntry(b: Board, c: Coord, sub: Tree, d: nat, table: Table, w: Weights,
                                           id: nat, bound: int)
    requires Reachable(b, w) && Play(b, c).ok && Empties(b) <= bound + 1 && Unreached(id, w, bound)
    requires sub.BoardNode? && WellFormed(sub) && sub.board == Play(b, c).board && Valid(table)
    ensures SameEntry(table, OptimalMove(sub, d, table).table, id)
    decreases d + 1, 0, 0, 0
  {
    PlayReachable(b, c, w);
    SearchKeepsEntry(sub, d, table, w, id, bound);
  }

  /** On a miss for a reachable position, getOptimalMove stores its result
      at the position's id and the depth asked for when the id was absent or
      stored shallower (boardtree.cpp:171); an entry at least that deep, whose
      score is illegal since the lookup missed, is kept as it
      was (hashtable.cpp:43). */
  lemma MissStores(t: Tree, depth: nat, table: Table, w: Weights)
    requires WellFormed(t) && t.BoardNode? && Valid(table) && Reachable(t.board, w)
    ensures var id := t.board.id;
      var r := OptimalMove(t, depth, table);
      depth > 0 && !IsFinished(t.board) && GetHashedMove(table, id, depth).score == ILLEGAL ==>
        && (id !in MapOf(table) || MapOf(table)[id].depth < depth ==> MapOf(r.table)[id] == Stored(depth, r.move))
        && (id in MapOf(table) && MapOf(table)[id].depth >= depth ==>
              MapOf(r.table)[id] == MapOf(table)[id] && MapOf(table)[id].move.score == ILLEGAL)
  {
    var b := t.board;
    if depth > 0 && !IsFinished(b) && GetHashedMove(table, b.id, depth).score == ILLEGAL {
      OwnIdUnreached(b, w);
      ScanKeepsEntry(t, depth, 0, InitialEstimate(b.curPlayer), ILLEGAL_MOVE, table, w, b.id, Empties(b) - 1);
    }
  }

  // ---------------------------------------------------------------------
  // BoardTree::getOptimalMoveAlphaBeta

  /** The result of the pruned search and the tree after it. */
  datatype Explored = Explored(move: Move, tree: Tree)

  /** getOptimalMoveAlphaBeta (boardtree.cpp:224-298): no table is read or
      written, so none is passed. */
  function OptimalMoveAlphaBeta(t: Tree, depth: nat, alpha: int, beta: int): (r: Explored)
    requires WellFormed(t)
    ensures WellFormed(r.tree)
    ensures t.Nil? ==> r == Explored(ILLEGAL_MOVE, Nil)
    ensures t.BoardNode? ==> r.tree.BoardNode? && r.tree.board == t.board
    ensures t.BoardNode? && (depth == 0 || IsFinished(t.board)) ==>
      r == Explored(Move(Score(t.board), Coord(0, 0)), t)
    decreases depth, 1
  {
    if t.Nil? then Explored(ILLEGAL_MOVE, t)
    else if depth == 0 || IsFinished(t.board) then Explored(Move(Score(t.board), Coord(0, 0)), t)
    else AlphaBetaScan(t, depth, 0, alpha, beta, InitialEstimate(t.board.curPlayer), ILLEGAL_MOVE)
  }

  /** The double loop of getOptimalMoveAlphaBeta from cell k on: the cut test
      and the bound update follow every counted child (boardtree.cpp:254-294). */
  function AlphaBetaScan(t: Tree, depth: nat, k: nat, alpha: int, beta: int, est: int, best: Move): (r: Explored)
    requires t.BoardNode? && WellFormed(t) && 0 < depth && k <= CELLS
    ensures WellFormed(r.tree)
    ensures r.tree.BoardNode? && r.tree.board == t.board
    decreases depth, 0, CELLS - k
  {
    if k == CELLS then Explored(best, t)
    else
      var g := GetSubTree(t, CoordOf(k));
      if g.sub.Nil? then AlphaBetaScan(g.tree, depth, k + 1, alpha, beta, est, best)
      else
        var child := OptimalMoveAlphaBeta(g.sub, depth - 1, alpha, beta);
        var t' := PutBack(g.tree, k, child.tree);
        match PruneStep(t.board.curPlayer, child.move.score, CoordOf(k), alpha, beta, est, best)
        case Skip => AlphaBetaScan(t', depth, k + 1, alpha, beta, est, best)
        case Cut(m) => Explored(m, t')
        case Next(a, b, e, m) => AlphaBetaScan(t', depth, k + 1, a, b, e, m)
  }

  // ---------------------------------------------------------------------
  // The pruned tree search computes the pruned game-tree search

  /** On a built node the pruned tree search returns what the alpha-beta
      search of the node's board returns. */
  lemma {:induction false} AlphaBetaTreeExact(t: Tree, depth: nat, alpha: int, beta: int)
    requires WellFormed(t) && t.BoardNode?
    ensures OptimalMoveAlphaBeta(t, depth, alpha, beta).move == AlphaBeta(t.board, depth, alpha, beta)
    decreases depth, 1
  {
    if depth > 0 && !IsFinished(t.board) {
      var G := Game(t.board, depth);
      GameShape(t.board, depth);
      AlphaBetaScanExact(t, depth, 0, alpha, beta, InitialEstimate(t.board.curPlayer), ILLEGAL_MOVE, G);
    }
  }

  /** The scan over a node's slots, against the scan over the branches of
      the node's game tree `g`. */
  lemma {:induction false} AlphaBetaScanExact(t: Tree, depth: nat, k: nat, alpha: int, beta: int, est: int, best: Move,
                                              g: GameTree)
    requires t.BoardNode? && WellFormed(t) && 0 < depth && k <= CELLS
    requires g.Node? && g.mover == t.board.curPlayer && |g.kids| == CELLS
    requires forall j :: 0 <= j < CELLS ==> g.kids[j] == BranchOf(t.board, depth, j)
    ensures AlphaBetaScan(t, depth, k, alpha, beta, est, best).move == PruneScan(g, k, alpha, beta, est, best)
    decreases depth, 0, CELLS - k, 1
  {
    if k < CELLS {
      var got := GetSubTree(t, CoordOf(k));
      if got.sub.Nil? {
        AlphaBetaScanExact(got.tree, depth, k + 1, alpha, beta, est, best, g);
      } else {
        PrunedChildExact(t, depth, k, alpha, beta, g);
        var child := OptimalMoveAlphaBeta(got.sub, depth - 1, alpha, beta);
        var t' := PutBack(got.tree, k, child.tree);
        match PruneStep(t.board.curPlayer, child.move.score, CoordOf(k), alpha, beta, est, best)
        case Skip => AlphaBetaScanExact(t', depth, k + 1, alpha, beta, est, best, g);
        case Cut(m) =>
        case Next(a, b, e, m) => AlphaBetaScanExact(t', depth, k + 1, a, b, e, m, g);
      }
    }
  }

  /** A built slot is the branch of its cell, and its pruned search is the
      branch's pruned search in the same window. */
  lemma {:induction false} PrunedChildExact(t: Tree, depth: nat, k: nat, alpha: int, beta: int, g: GameTree)
    requires t.BoardNode? && WellFormed(t) && 0 < depth && k < CELLS
    requires g.Node? && |g.kids| == CELLS
    requires forall j :: 0 <= j < CELLS ==> g.kids[j] == BranchOf(t.board, depth, j)
    requires GetSubTree(t, CoordOf(k)).sub.BoardNode?
    ensures g.kids[k].Legal?
    ensures Prune(g.kids[k].sub, alpha, beta) == OptimalMoveAlphaBeta(GetSubTree(t, CoordOf(k)).sub, depth - 1, alpha, beta).move
    decreases depth, 0, CELLS - k, 0
  {
    AlphaBetaTreeExact(GetSubTree(t, CoordOf(k)).sub, depth - 1, alpha, beta);
  }

  // ---------------------------------------------------------------------
  // The memoised tree search computes minimax

  /** What a table may hold for a search whose depth exceeds the empty-cell
      count of every visited position by `slack`: each entry with a genuine
      score stores the minimax move of the position its key stands for, at
      the stored depth; and unless the search reaches past the end of the
      game (slack >= 0), the stored depth exceeds that position's empty-cell
      count by at most `slack`, so that a hit never answers for a deeper
      search than the one asking. */
  predicate TableAgrees(table: Table, w: Weights, slack: int) {
    forall id :: id in MapOf(table) ==> EntryAgrees(id, MapOf(table)[id], w, slack)
  }

  predicate EntryAgrees(id: nat, e: Stored, w: Weights, slack: int) {
    e.move.score != ILLEGAL ==>
      && e.depth >= 0
      && e.move == Minimax(BoardOf(id, w), e.depth)
      && (slack >= 0 || e.depth - Empties(BoardOf(id, w)) <= slack)
  }

  /** An empty table agrees with every search. */
  lemma ClearedTableAgrees(table: Table, w: Weights, slack: int)
    ensures TableAgrees(ClearTable(table), w, slack)
  {
  }

  /** Storing the minimax move of a reachable position at the depth the
      search used keeps the table in agreement. */
  lemma StoreAgrees(table: Table, b: Board, depth: nat, move: Move, w: Weights)
    requires Valid(table) && Reachable(b, w)
    requires TableAgrees(table, w, depth - Empties(b))
    requires move == Minimax(b, depth)
    ensures TableAgrees(UpdateTable(table, b.id, depth, move), w, depth - Empties(b))
  {
    BoardOfReachable(b, w);
    var m := MapOf(table);
    var m' := MapOf(UpdateTable(table, b.id, depth, move));
    forall id | id in m'
      ensures EntryAgrees(id, m'[id], w, depth - Empties(b))
    {
      if id != b.id || (b.id in m && depth <= m[b.id].depth) {
        assert m'[id] == m[id];
      } else {
        assert m'[id] == Stored(depth, move);
      }
    }
  }

  /** A hit answers with the minimax move at the depth asked for: the entry
      was stored either at that depth or, when the search reaches past the
      end of the game, at another depth that also does. */
  lemma HitExact(table: Table, b: Board, depth: nat, w: Weights)
    requires Valid(table) && Reachable(b, w)
    requires TableAgrees(table, w, depth - Empties(b))
    requires GetHashedMove(table, b.id, depth).score != ILLEGAL
    ensures GetHashedMove(table, b.id, depth) == Minimax(b, depth)
  {
    BoardOfReachable(b, w);
    var e := MapOf(table)[b.id];
    assert EntryAgrees(b.id, e, w, depth - Empties(b));
    if depth < Empties(b) {
      assert e.depth == depth;
    } else {
      MinimaxBeyondHorizon(b, depth, e.depth);
    }
  }

  /** With every genuine entry exact at its own depth, and no cap on the
      stored depths, a hit still answers with the minimax move of the
      position at some depth at least the one asked for. */
  lemma HitDeeper(table: Table, b: Board, depth: nat, w: Weights)
    requires Valid(table) && Reachable(b, w) && TableAgrees(table, w, 0)
    requires GetHashedMove(table, b.id, depth).score != ILLEGAL
    ensures exists d: nat :: depth <= d && GetHashedMove(table, b.id, depth) == Minimax(b, d)
  {
    BoardOfReachable(b, w);
    var e := MapOf(table)[b.id];
    assert EntryAgrees(b.id, e, w, 0);
    var d: nat := e.depth;
    assert GetHashedMove(table, b.id, depth) == Minimax(b, d);
  }

  /** getOptimalMove on a built node whose position is reachable under the
      weight grid `w`, with a table in agreement, returns the minimax move of
      the node's board, and leaves the table in agreement. */
  lemma {:induction false} OptimalMoveExact(t: Tree, depth: nat, table: Table, w: Weights)
    requires WellFormed(t) && t.BoardNode? && Valid(table) && Reachable(t.board, w)
    requires TableAgrees(table, w, depth - Empties(t.board))
    ensures OptimalMove(t, depth, table).move == Minimax(t.board, depth)
    ensures TableAgrees(OptimalMove(t, depth, table).table, w, depth - Empties(t.board))
    decreases depth, 1
  {
    var b := t.board;
    if depth > 0 && !IsFinished(b) {
      if GetHashedMove(table, b.id, depth).score != ILLEGAL {
        HitExact(table, b, depth, w);
      } else {
        var g := Game(b, depth);
        GameShape(b, depth);
        var s := OptimalScan(t, depth, 0, InitialEstimate(b.curPlayer), ILLEGAL_MOVE, table);
        OptimalScanExact(t, depth, 0, InitialEstimate(b.curPlayer), ILLEGAL_MOVE, table, w, g);
        StoreAgrees(s.table, b, depth, s.move, w);
      }
    }
  }

  /** The loop of getOptimalMove against the scan over the branches of the
      node's game tree `g`, the table threaded through both. */
  lemma {:induction false} OptimalScanExact(t: Tree, depth: nat, k: nat, est: int, best: Move, table: Table,
                                            w: Weights, g: GameTree)
    requires t.BoardNode? && WellFormed(t) && Valid(table) && 0 < depth && k <= CELLS
    requires Reachable(t.board, w) && TableAgrees(table, w, depth - Empties(t.board))
    requires g.Node? && g.mover == t.board.curPlayer && |g.kids| == CELLS
    requires forall j :: 0 <= j < CELLS ==> g.kids[j] == BranchOf(t.board, depth, j)
    ensures OptimalScan(t, depth, k, est, best, table).move == Scan(g, k, est, best)
    ensures TableAgrees(OptimalScan(t, depth, k, est, best, table).table, w, depth - Empties(t.board))
    decreases depth, 0, CELLS - k, 1
  {
    if k < CELLS {
      var got := GetSubTree(t, CoordOf(k));
      if got.sub.Nil? {
        OptimalScanExact(got.tree, depth, k + 1, est, best, table, w, g);
      } else {
        ChildExact(t, depth, k, table, w, g);
        var child := OptimalMove(got.sub, depth - 1, table);
        var t' := PutBack(got.tree, k, child.tree);
        var c := Consider(t.board.curPlayer, child.move.score, CoordOf(k), est, best);
        OptimalScanExact(t', depth, k + 1, c.est, c.best, child.table, w, g);
      }
    }
  }

  /** A built slot is the branch of its cell, and its search is the
      branch's minimax move. */
  lemma {:induction false} ChildExact(t: Tree, depth: nat, k: nat, table: Table, w: Weights, g: GameTree)
    requires t.BoardNode? && WellFormed(t) && Valid(table) && 0 < depth && k < CELLS
    requires Reachable(t.board, w) && TableAgrees(table, w, depth - Empties(t.board))
    requires g.Node? && |g.kids| == CELLS
    requires forall j :: 0 <= j < CELLS ==> g.kids[j] == BranchOf(t.board, depth, j)
    requires GetSubTree(t, CoordOf(k)).sub.BoardNode?
    ensures g.kids[k].Legal?
    ensures Search(g.kids[k].sub) == OptimalMove(GetSubTree(t, CoordOf(k)).sub, depth - 1, table).move
    ensures TableAgrees(OptimalMove(GetSubTree(t, CoordOf(k)).sub, depth - 1, table).table, w, depth - Empties(t.board))
    decreases depth, 0, CELLS - k, 0
  {
    var sub := GetSubTree(t, CoordOf(k)).sub;
    PlayReachable(t.board, CoordOf(k), w);
    OptimalMoveExact(sub, depth - 1, table, w);
  }

  // ---------------------------------------------------------------------
  // A fresh search

  /** getOptimalMove on a new tree for a reachable position, with the table
      cleared first, returns the minimax move. */
  lemma FreshSearchIsMinimax(b: Board, w: Weights, depth: nat, table: Table)
    requires Reachable(b, w)
    ensures OptimalMove(NewTree(b), depth, ClearTable(table)).move == Minimax(b, depth)
  {
    ClearedTableAgrees(table, w, depth - Empties(b));
    OptimalMoveExact(NewTree(b), depth, ClearTable(table), w);
  }

  /** On a tree for a position with a bounded weight grid, the pruned search
      started from a window containing every genuine score returns the
      minimax score, whatever parts of the tree are already built. */
  lemma AlphaBetaTreeIsMinimax(t: Tree, depth: nat, alpha: int, beta: int)
    requires WellFormed(t) && t.BoardNode? && WeightsBounded(t.board.weights)
    requires alpha <= -INF && INF <= beta
    ensures OptimalMoveAlphaBeta(t, depth, alpha, beta).move.score == Minimax(t.board, depth).score
  {
    AlphaBetaTreeExact(t, depth, alpha, beta);
    AlphaBetaMatchesMinimax(t.board, depth, alpha, beta);
  }

  /** From any reachable position with a bounded weight grid, searched on a
      new tree with the table cleared first, the two searches of a BoardTree
      agree on the score. */
  lemma SearchesAgree(b: Board, w: Weights, depth: nat, table: Table)
    requires Reachable(b, w) && WeightsBounded(w)
    ensures OptimalMoveAlphaBeta(NewTree(b), depth, -INF, INF).move.score
         == OptimalMove(NewTree(b), depth, ClearTable(table)).move.score
  {
    FreshSearchIsMinimax(b, w, depth, table);
    AlphaBetaTreeIsMinimax(NewTree(b), depth, -INF, INF);
  }
}
