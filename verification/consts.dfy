/** Constants and the cell enumeration the engine takes from its headers
    (const.h, board.h). Those headers are not part of this model: where a value
    is unknown it is left uninterpreted, and the only thing the engine relies on
    is recorded in the constant's type. */
module Consts {

  /** BOARD_SIZE: the side of the square board. */
  const N: nat := 3

  /** Number of cells, the length of every row-major grid. */
  const CELLS: nat := N * N

  /** The magnitude of the initial running estimate of both searches
      (boardtree.cpp:135 and 249). */
  const INF: int := 50000

  type WinScore = w: int | 0 < w < INF witness 1

  /** WIN_SCORE: the score of a board with a complete line, below INF. */
  const WIN: WinScore
  const WIN_SCORE: int := WIN as int

  type OffScale = s: int | s <= -INF || INF <= s witness INF

  /** ILLEGAL: the "no move" score, outside the range of genuine scores. */
  const ILLEGAL: OffScale

  type Positive = n: int | 0 < n witness 1

  /** TABLE_SIZE: the number of buckets of the transposition table. */
  const TABLE_SIZE: Positive

  /** getCellWeight(X) and getCellWeight(O): the per-player factors of the
      heuristic score. */
  const CELL_WEIGHT_X: int
  const CELL_WEIGHT_O: int

  /** The contents of a cell. */
  datatype Cell = Empty | X | O

  /** The integer value of the X and O enumerators, as used by the line sums of
      getBoardScore; an empty cell is skipped by those sums. */
  const X_VALUE: int := 1
  const O_VALUE: int := -1

  /** The player who moves after `p` (board.cpp:141): anything but X hands the
      move to X. */
  function Opponent(p: Cell): Cell {
    if p == X then O else X
  }

  function Max(a: int, b: int): int { if a >= b then a else b }
  function Min(a: int, b: int): int { if a <= b then a else b }
  function Abs(a: int): nat { if a >= 0 then a else -a }
}
