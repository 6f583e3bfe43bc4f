# pa3 tic-tac-toe engine in Dafny

A model of the game engine of pa3. It covers three parts:

- **The board** (`board.cpp`): an N x N grid of cells, a weight grid, the player to move and a base-3 id.
- **The transposition table** (`hashtable.cpp`): chained buckets indexed by `id % TABLE_SIZE`.
- **The search tree** (`boardtree.cpp`): lazily built subtrees, a memoised minimax search and an alpha-beta search.

Every operation is a pure function over immutable datatypes. The proofs relate each operation to an independent reference definition.

The files:

- `consts.dfy` (module `Consts`): the header constants and the cell enumeration.
  - `BOARD_SIZE` is fixed to 3.
  - `WIN_SCORE`, `ILLEGAL`, `TABLE_SIZE` and the two `getCellWeight` factors are left uninterpreted. Only what the engine relies on is recorded in their types:
    - `0 < WIN_SCORE < 50000`;
    - `ILLEGAL` lies outside `(-50000, 50000)`;
    - `TABLE_SIZE > 0`.
  - X counts as 1 and O as -1 in the line sums.
- `board_id.dfy` (module `BoardId`): the base-3 id of a grid. It proves the id round-trips through base-3 decoding and is injective.
- `board.dfy` (module `Board`): the constructor, `isFull`, `getBoardScore`, `isFinished` and `play`. A grid is a row-major sequence of N*N cells. The win test is modelled as written, comparing line sums with N*X and N*O, X before O. It is then proved equal to "every cell of the line holds the player".
- `hashtable.dfy` (module `HashTable`): the bucket array, with its abstract meaning, a map from id to (depth, move). `getHashedMove`, `updateTable` and `clearTable` are proved to refine the corresponding map operations.
- `minimax.dfy` (module `MinimaxSpec`): the reference search.
  - `Game(b, depth)` is the tree of positions the search visits. Its leaves are where the search stops, with the board's score; an inner node has one branch per cell in row-major order.
  - `Search` is the double loop of `getOptimalMove` over that tree: strict improvement, with ties kept at the first cell.
  - `Minimax(b, depth) = Search(Game(b, depth))`.
- `alphabeta.dfy` (module `Pruning`): the alpha-beta loop over the same tree. The cut test and the bound update follow every counted child. It is proved to agree with `Search` in every window, and to equal it from the widest window.
- `boardtree.dfy` (module `BoardTree`): the BoardTree itself, `getSubTree`, and both searches with the tree (and, for the memoised one, the table) threaded through.
  - The pruned tree search is proved equal to `Pruning`'s search of the node's game tree.
  - The memoised search is proved to return `Minimax(board, depth)` whenever the table agrees with the search (`TableAgrees`). It also leaves the table in agreement. A cleared table always agrees.

Two behaviours of the code are modelled as written:

- A board whose weighted sum happens to equal `WIN_SCORE` or `-WIN_SCORE` counts as finished (`Board.IsFinishedMeans`).
- A cache hit answers with the move stored for a depth at least the requested one. That move is the minimax move at the stored depth (`BoardTree.HitDeeper`), not at the requested one. The exact theorem (`BoardTree.OptimalMoveExact`) holds in two cases:
  - the search reaches past the end of the game, so every depth gives the same answer;
  - no stored depth exceeds what the current search could itself ask for.

Two further behaviours of the code, also modelled as written:

- A miss does not always overwrite the entry it missed. An entry at least as deep as the search, but holding a move whose score is ILLEGAL, is not a hit (hashtable.cpp:16-18, boardtree.cpp:124-127). It is not replaced by the new result either, because `updateTable` replaces only a strictly shallower entry (hashtable.cpp:43). `BoardTree.MissStores` states both cases.
- A full board with no complete line is not scored 0. It is scored by the weighted sum `xSum*getCellWeight(X) - oSum*getCellWeight(O)`, like every other board without a complete line (board.cpp:106-120, `Board.ScoreCases`).

## Model

| member | source | states |
|---|---|---|
| `Board.NewBoard` | board.cpp:8-18 | Every cell is empty, the weight grid is the one given, X moves and the id is 0; the new board is reachable and has all N*N cells empty. |
| `Board.IsFullMeans` | board.cpp:21-31 | isFull holds exactly when no cell is EMPTY, which is exactly when the count of empty cells is 0. |
| `Board.LineSumTest` | board.cpp:47-65 | With X = 1 and O = -1, a line's sum of non-empty cells equals N*X exactly when every cell of the line is X, and N*O exactly when every cell is O; the sum lies in [-N, N]. |
| `Board.WinnerFromLines` | board.cpp:47-104 | The row/column loop from index i, then the diagonals, reports X (O) only when X (O) has a complete row or column from i on or a complete diagonal, and nobody exactly when neither player has one. |
| `Board.WinnerLines` | board.cpp:44-104 | The whole line test reports a player only when that player has a complete row, column or diagonal, and reports nobody exactly when neither has one. |
| `Board.ScoreCases` | board.cpp:42-121 | A complete line for X alone scores WIN_SCORE, for O alone -WIN_SCORE, lines for both one of the two; with no complete line the score is xSum*getCellWeight(X) - oSum*getCellWeight(O) over the weight grid. |
| `Board.IsFinishedMeans` | board.cpp:34-37 | isFinished holds exactly when some player has a complete line, the board has no empty cell, or the weighted sum itself equals WIN_SCORE or -WIN_SCORE. |
| `Board.Play` | board.cpp:132-151 | play succeeds exactly when the coordinate is on the board and its cell is empty; a refused play leaves the board unchanged; a successful one hands the move to the other player and keeps the weights. |
| `Board.PlayMeans` | board.cpp:140-149 | A successful play writes the mover's mark in exactly the target cell, leaves every other cell as it was, and sets the id to the base-3 code of the new grid, which decodes back to that grid. |
| `Board.PlayFillsOne` | board.cpp:137-140 | A successful play by X or O fills exactly one empty cell. |
| `Board.PlayReachable` | board.cpp:140-149 | A successful play from a position reachable from the constructor gives a reachable position (id matching the cells, mover following from the mark counts) with one empty cell fewer. |
| `Board.BoardOfReachable` | board.cpp:142-149 | A reachable position is exactly the position its id decodes to, with the weights and the mover the decoded grid implies. |
| `Board.ScoreInRange` | board.cpp:106-120 | With a weight grid whose sum of absolute weights, times \|getCellWeight(X)\| + \|getCellWeight(O)\|, is below 50000, every score lies strictly between -50000 and 50000 and differs from ILLEGAL. |
| `BoardId.IdOfEmpty` | board.cpp:16-17 | An all-empty grid has id 0, the id the constructor stores. |
| `BoardId.DecodeId` | board.cpp:126-149 | Reading a grid's id back in base 3 gives the grid. |
| `BoardId.IdDecode` | board.cpp:126-131 | Every number below 3^n is the id of the n-cell grid it decodes to. |
| `BoardId.IdInjective` | board.cpp:142-149 | Two grids of the same size with the same id are equal. |
| `BoardId.IdFits` | board.cpp:142-149 | The id of a 3 x 3 grid is below 3^9 = 19683. |
| `HashTable.LookupChainMap` | hashtable.cpp:10-27 | The walk of one chain returns the illegal move for an id the chain's map lacks, the stored move when the stored depth reaches the requested one, and the illegal move when it does not. |
| `HashTable.GetHashedMove` | hashtable.cpp:7-28 | A lookup returns the illegal move for an id the table's map lacks, the stored move when the stored depth is at least the requested one, and the illegal move when it is lower. |
| `HashTable.MapUpdate` | hashtable.cpp:34-58 | On the map: an absent id gets the new (depth, move); a present id is replaced only by a strictly greater depth and is otherwise left alone; the stored depth never decreases; every other id keeps its entry. |
| `HashTable.ReviseChainMap` | hashtable.cpp:39-53 | Walking a chain that holds the id revises that chain's map exactly as the map-level update does. |
| `HashTable.UpdatedChainOk` | hashtable.cpp:37-57 | The chain left at bucket id % TABLE_SIZE still has every entry in the right bucket and no id twice, and it means the updated map. |
| `HashTable.UpdateTable` | hashtable.cpp:34-58 | The table stays valid, its map becomes the map-level update of the old one, an absent id is pushed at the head of bucket id % TABLE_SIZE, and every other bucket is unchanged. |
| `HashTable.StoredDepthNeverDecreases` | hashtable.cpp:43-47 | Across any sequence of updates, an id once stored stays stored and its stored depth never decreases. |
| `HashTable.ClearTable` | hashtable.cpp:62-79 | Every bucket is empty, the table's map is empty, and every lookup returns the illegal move. |
| `MinimaxSpec.ScanChooses` | boardtree.cpp:140-168 | The loop from cell k on, started from the choice among the cells before k, ends with the choice among all cells. |
| `MinimaxSpec.MinimaxChoosesFirstBest` | boardtree.cpp:135-168 | On an unfinished board at depth > 0 the result is the illegal move when no counted child beats the initial estimate. Otherwise it is the first cell in row-major order whose child score beats the estimate, is beaten by no counted child, and strictly beats every counted child before it, with that score. |
| `MinimaxSpec.GameBeyondHorizon` | boardtree.cpp:112-119 | Any two depths at least the number of empty cells give the same tree of positions. |
| `MinimaxSpec.MinimaxBeyondHorizon` | boardtree.cpp:112-119 | Any two depths at least the number of empty cells give the same minimax move. |
| `MinimaxSpec.GameBounded` | board.cpp:106-120 | With a bounded weight grid every leaf score of the searched tree lies strictly inside (-50000, 50000). |
| `MinimaxSpec.SearchInRange` | boardtree.cpp:135-168 | The value of a tree with in-range leaves is the illegal score or lies strictly inside (-50000, 50000). |
| `MinimaxSpec.ScanKeepsBest` | boardtree.cpp:154-165 | Once a move is chosen, the rest of the loop returns it or a strictly better one, never the illegal score. |
| `MinimaxSpec.MinimaxInRange` | boardtree.cpp:135 | With a bounded weight grid the minimax score is the illegal score or lies strictly inside (-50000, 50000). |
| `Pruning.MaxStep` | boardtree.cpp:263-293 | At X's node, when the child's pruned score agrees with its exact score in the window, the two loops skip together. Or the pruned loop cuts, and then the exact loop has taken the child with a score above beta. Or the relation between the two loops carries on to the next cell. |
| `Pruning.MinStep` | boardtree.cpp:263-293 | The mirror image of MaxStep at O's node, with the cut below alpha. |
| `Pruning.PruneWindow` | boardtree.cpp:224-298 | In every window alpha <= beta, on a tree with in-range leaves, the pruned score is ILLEGAL exactly when the minimax score is. It equals the minimax score when that lies in the window, lies below alpha when that does, and above beta when that does. |
| `Pruning.AlphaBetaWindow` | boardtree.cpp:224-298 | The same agreement for the pruned search of a board with a bounded weight grid. |
| `Pruning.AlphaBetaMatchesMinimax` | boardtree.cpp:224-298 | Started from a window containing every genuine score, the pruned search returns the minimax score. |
| `BoardTree.NewTree` | boardtree.cpp:10-13 | A new tree holds the given board and an empty slot for every cell. |
| `BoardTree.GetSubTree` | boardtree.cpp:25-55 | On an empty tree the result is empty. For an illegal move the slot is left empty. For a legal move the slot holds a node with the parent's board played there, built only if it was empty. The parent's board and every other slot are unchanged, and both trees stay well formed. |
| `BoardTree.GetSubTreeIdempotent` | boardtree.cpp:46-49 | Asking twice for the same subtree gives what asking once gives. |
| `BoardTree.OptimalMove` | boardtree.cpp:99-174 | getOptimalMove keeps the table valid and the tree well formed, and keeps the root board. |
| `BoardTree.OptimalMoveTable` | boardtree.cpp:104-171 | An empty tree gives the illegal move. Depth 0 or a finished board gives (score, (0, 0)) with tree and table untouched. A hit returns the stored move and expands nothing. A miss leaves an entry for the node's id at a depth at least the requested one; what it stores there is stated by `BoardTree.MissStores`. |
| `BoardTree.OptimalMoveAlphaBeta` | boardtree.cpp:224-298 | An empty tree gives the illegal move and stays empty. Depth 0 or a finished board gives (score, (0, 0)) with the tree untouched. Otherwise the tree stays well formed and keeps its root board. No table is read or written. |
| `BoardTree.SearchKeepsEntry` | boardtree.cpp:121-174 | The memoised search of a reachable position leaves alone the table entry of every id that no reachable position with at most the searched position's empty cells carries. |
| `BoardTree.OwnIdUnreached` | board.cpp:142-149 | No reachable position with fewer empty cells shares a reachable position's id. |
| `BoardTree.MissStores` | boardtree.cpp:124-171 | On a miss for a reachable position, an absent or shallower entry for its id ends up holding (requested depth, returned move). An entry at least as deep, whose move's score is ILLEGAL, is left as it was. |
| `BoardTree.AlphaBetaTreeExact` | boardtree.cpp:224-298 | On any well-formed node, built or not below the root, the pruned tree search returns exactly the pruned search of the node's board. |
| `BoardTree.AlphaBetaScanExact` | boardtree.cpp:254-295 | The loop over a node's slots from cell k on returns what the pruned loop over the branches of the node's game tree returns. |
| `BoardTree.ClearedTableAgrees` | hashtable.cpp:62-79 | A cleared table agrees with every search. |
| `BoardTree.StoreAgrees` | boardtree.cpp:170-171 | Storing the minimax move of a reachable position at the searched depth keeps the table in agreement. |
| `BoardTree.HitExact` | boardtree.cpp:124-127 | With a table in agreement, a hit returns exactly the minimax move at the requested depth. |
| `BoardTree.HitDeeper` | boardtree.cpp:124-127 | With every genuine entry exact at its own depth, a hit returns the minimax move at some depth at least the requested one. |
| `BoardTree.OptimalMoveExact` | boardtree.cpp:99-174 | On a reachable node with a table in agreement, getOptimalMove returns the minimax move of the node's board at the requested depth and leaves the table in agreement. |
| `BoardTree.OptimalScanExact` | boardtree.cpp:140-168 | The loop over a node's slots from cell k on returns what the minimax loop over the node's game tree returns, and keeps the table in agreement. |
| `BoardTree.FreshSearchIsMinimax` | boardtree.cpp:99-174 | On a new tree for a reachable position, after clearing the table, getOptimalMove returns the minimax move. |
| `BoardTree.AlphaBetaTreeIsMinimax` | boardtree.cpp:224-298 | From a window containing every genuine score, the pruned tree search returns the minimax score of the node's board. |
| `BoardTree.SearchesAgree` | boardtree.cpp:99-298 | For any reachable position with a bounded weight grid, searched on a new tree, the memoised search with a cleared table and the pruned search from the widest window return the same score. |

## Left out

- Heap allocation with `new`/`delete`, the BoardTree destructor and the deallocation loop of `clearTable`. The tree is an owning datatype. A search returns the tree it expanded.
- The singleton `BoardHashTable::getInstance`. The table is an explicit input and output of the memoised search, threaded through the loop in the source's order.
- The floating-point `pow` of `play`. The id uses exact integer powers of 3, and `BoardId.IdFits` bounds it for N = 3.
- Integer widths. Scores, depths and ids are unbounded integers. The score range is instead bounded by the `WeightsBounded` condition: the sum of the absolute weights, times |getCellWeight(X)| + |getCellWeight(O)|, is below 50000. Under it every genuine score lies inside (-50000, 50000). The pruning theorems and the range lemmas assume it.
- The header constants and `getCellWeight`. They are uninterpreted constants restricted only as stated above. `BOARD_SIZE` is 3.
- The commented-out column loop of `getBoardScore`, the commented-out class declaration in `boardtree.cpp`, and debug prints.
- `BoardTree.GetSubTree`: requires the coordinate to be on the board. The source indexes the subtree array with it before `play` can refuse it, which is undefined for an off-board coordinate.
- `BoardTree.OptimalMoveExact`: stated only for tables in agreement with the search. For a table that is only sound (every genuine entry exact at its own depth), a hit answers for a deeper search (`BoardTree.HitDeeper`). The node's result then mixes children answered at different depths, so no single-depth result is claimed.
- The work saved by pruning and caching. The tree search builds only the nodes it visits; the game tree of `MinimaxSpec` stands for all of them and is a specification device, not a data structure of the program.
