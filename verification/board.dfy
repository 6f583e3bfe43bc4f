/** One game position (board.cpp): the cells, the weight grid, the player to
    move and the base-3 id of the cells. Grids are stored row-major, cell
    (r, c) at index r * N + c, which is the order every loop of board.cpp
    visits them in. */
module Board {
  import opened Consts
  import opened BoardId

  /** BoardCoordinate: a (row, column) pair; only [0, N) is on the board. */
  datatype Coord = Coord(row: int, col: int)

  /** BoardOptimalMove: a score and the move that reaches it. */
  datatype Move = Move(score: int, coord: Coord)

  /** The coordinate of a default-constructed BoardOptimalMove (not shown). */
  const DEFAULT_COORD: Coord

  /** BoardOptimalMove(): the "illegal / not computed" move. */
  const ILLEGAL_MOVE: Move := Move(ILLEGAL, DEFAULT_COORD)

  type Cells = s: seq<Cell> | |s| == CELLS witness seq(CELLS, _ => Empty)
  type Weights = s: seq<int> | |s| == CELLS witness seq(CELLS, _ => 0)

  /** Board: `weights` is the `score` grid copied at construction. */
  datatype Board = Board(cells: Cells, weights: Weights, curPlayer: Cell, id: nat)

  predicate InBounds(c: Coord) {
    0 <= c.row < N && 0 <= c.col < N
  }

  /** The row-major index of an on-board coordinate. */
  function Index(c: Coord): (k: nat)
    requires InBounds(c)
    ensures k < CELLS
  {
    c.row * N + c.col
  }

  /** The coordinate visited k-th by a row-major double loop. */
  function CoordOf(k: nat): (c: Coord)
    requires k < CELLS
    ensures InBounds(c) && Index(c) == k
  {
    Coord(k / N, k % N)
  }

  // ---------------------------------------------------------------------
  // Counting cells

  function Count(s: seq<Cell>, c: Cell): nat {
    if |s| == 0 then 0 else (if s[0] == c then 1 else 0) + Count(s[1..], c)
  }

  lemma {:induction false} CountNone(s: seq<Cell>, c: Cell)
    ensures Count(s, c) == 0 <==> forall k :: 0 <= k < |s| ==> s[k] != c
  {
    if |s| > 0 {
      CountNone(s[1..], c);
      assert forall k :: 1 <= k < |s| ==> s[k] == s[1..][k - 1];
    }
  }

  lemma {:induction false} CountUpdate(s: seq<Cell>, i: nat, v: Cell, c: Cell)
    requires i < |s|
    ensures Count(s[i := v], c)
         == Count(s, c) - (if s[i] == c then 1 else 0) + (if v == c then 1 else 0)
  {
    if i > 0 {
      CountUpdate(s[1..], i - 1, v, c);
      assert s[i := v][1..] == s[1..][i - 1 := v];
    } else {
      assert s[i := v][1..] == s[1..];
    }
  }

  /** The number of empty cells, which bounds how far a search can go. */
  function Empties(b: Board): nat {
    Count(b.cells, Empty)
  }

  /** The player to move on a position reached by alternate moves from the
      empty board, X first (board.cpp:16, 141). */
  function MoverFor(s: seq<Cell>): Cell {
    if Count(s, X) == Count(s, O) then X else O
  }

  /** A position reachable from the constructor by successful plays, under the
      weight grid `w`: the id matches the cells and the mover follows from the
      counts. */
  predicate Reachable(b: Board, w: Weights) {
    && b.weights == w
    && b.id == Id(b.cells)
    && (Count(b.cells, X) == Count(b.cells, O) || Count(b.cells, X) == Count(b.cells, O) + 1)
    && b.curPlayer == MoverFor(b.cells)
  }

  /** The position a table key stands for under the weight grid `w`: the
      grid read back from the id, and the mover that grid implies. */
  function BoardOf(id: nat, w: Weights): Board {
    var cells: Cells := Decode(id, CELLS);
    Board(cells, w, MoverFor(cells), id)
  }

  /** A reachable position is the one its id stands for: the id loses
      nothing a search depends on. */
  lemma BoardOfReachable(b: Board, w: Weights)
    requires Reachable(b, w)
    ensures BoardOf(b.id, w) == b
  {
    DecodeId(b.cells);
  }

  // ---------------------------------------------------------------------
  // Board::Board

  /** The constructor (board.cpp:8-18). */
  function NewBoard(w: Weights): (b: Board)
    ensures forall k :: 0 <= k < CELLS ==> b.cells[k] == Empty
    ensures b.weights == w && b.curPlayer == X && b.id == 0
    ensures Reachable(b, w) && Empties(b) == CELLS
  {
    var cells: Cells := seq(CELLS, _ => Empty);
    IdOfEmpty(cells, CELLS);
    CountNone(cells, X);
    CountNone(cells, O);
    EmptiesOfEmpty(cells, CELLS);
    Board(cells, w, X, 0)
  }

  lemma {:induction false} EmptiesOfEmpty(s: seq<Cell>, n: nat)
    requires |s| == n && forall k :: 0 <= k < n ==> s[k] == Empty
    ensures Count(s, Empty) == n
  {
    if n > 0 {
      EmptiesOfEmpty(s[1..], n - 1);
    }
  }

  // ---------------------------------------------------------------------
  // Board::isFull

  /** The row-major scan of isFull from cell k on. */
  predicate NoEmptyFrom(s: seq<Cell>, k: nat)
    requires k <= |s|
    decreases |s| - k
  {
    k == |s| || (s[k] != Empty && NoEmptyFrom(s, k + 1))
  }

  /** The scan succeeds exactly when no cell from k on is empty. */
  lemma {:induction false} NoEmptyFromMeans(s: seq<Cell>, k: nat)
    requires k <= |s|
    ensures NoEmptyFrom(s, k) <==> forall j :: k <= j < |s| ==> s[j] != Empty
    decreases |s| - k
  {
    if k < |s| {
      NoEmptyFromMeans(s, k + 1);
    }
  }

  /** isFull (board.cpp:21-31). */
  predicate IsFull(b: Board) {
    NoEmptyFrom(b.cells, 0)
  }

  /** A board is full exactly when no cell is empty, that is when it has no
      empty cells to count. */
  lemma IsFullMeans(b: Board)
    ensures IsFull(b) <==> forall k :: 0 <= k < CELLS ==> b.cells[k] != Empty
    ensures IsFull(b) <==> Empties(b) == 0
  {
    NoEmptyFromMeans(b.cells, 0);
    CountNone(b.cells, Empty);
  }

  // ---------------------------------------------------------------------
  // Lines and the win test of getBoardScore

  /** The amount a cell adds to a line sum: nothing when empty
      (board.cpp:51-56, 90-95), its enumerator value otherwise. */
  function Value(c: Cell): int {
    match c
    case Empty => 0
    case X => X_VALUE
    case O => O_VALUE
  }

  /** A line: a sequence of N cell indices. */
  predicate OnBoard(line: seq<nat>) {
    forall j :: 0 <= j < |line| ==> line[j] < CELLS
  }

  function Row(i: nat): (line: seq<nat>)
    requires i < N
    ensures |line| == N && OnBoard(line)
  {
    seq(N, j requires 0 <= j < N => i * N + j)
  }

  function Col(i: nat): (line: seq<nat>)
    requires i < N
    ensures |line| == N && OnBoard(line)
  {
    seq(N, j requires 0 <= j < N => j * N + i)
  }

  function Diagonal(): (line: seq<nat>)
    ensures |line| == N && OnBoard(line)
  {
    seq(N, i requires 0 <= i < N => i * N + i)
  }

  function AntiDiagonal(): (line: seq<nat>)
    ensures |line| == N && OnBoard(line)
  {
    seq(N, i requires 0 <= i < N => i * N + (N - i - 1))
  }

  /** The sum getBoardScore accumulates over a line. */
  function LineSum(s: Cells, line: seq<nat>): int
    requires OnBoard(line)
  {
    if |line| == 0 then 0 else Value(s[line[0]]) + LineSum(s, line[1..])
  }

  /** Every cell of the line holds `p`. */
  predicate Complete(s: Cells, line: seq<nat>, p: Cell)
    requires OnBoard(line)
  {
    forall j :: 0 <= j < |line| ==> s[line[j]] == p
  }

  /** With X = 1 and O = -1, the sum test of getBoardScore is exactly the test
      "every cell of the line is X" (resp. O). */
  lemma {:induction false} LineSumTest(s: Cells, line: seq<nat>)
    requires OnBoard(line)
    ensures -|line| <= LineSum(s, line) <= |line|
    ensures LineSum(s, line) == |line| * X_VALUE <==> Complete(s, line, X)
    ensures LineSum(s, line) == |line| * O_VALUE <==> Complete(s, line, O)
  {
    if |line| > 0 {
      var rest := line[1..];
      LineSumTest(s, rest);
      assert forall j :: 1 <= j < |line| ==> line[j] == rest[j - 1];
      assert Complete(s, line, X) <==> s[line[0]] == X && Complete(s, rest, X);
      assert Complete(s, line, O) <==> s[line[0]] == O && Complete(s, rest, O);
    }
  }

  /** Some row or column with index at least i is complete for `p`. */
  predicate RowOrColFrom(s: Cells, p: Cell, i: nat) {
    exists r :: i <= r < N && (Complete(s, Row(r), p) || Complete(s, Col(r), p))
  }

  predicate DiagonalLine(s: Cells, p: Cell) {
    Complete(s, Diagonal(), p) || Complete(s, AntiDiagonal(), p)
  }

  /** Some row, column or diagonal is complete for `p`. */
  predicate HasLine(s: Cells, p: Cell) {
    RowOrColFrom(s, p, 0) || DiagonalLine(s, p)
  }

  /** The diagonal test (board.cpp:87-104): X before O. */
  function DiagonalWinner(s: Cells): Cell {
    if LineSum(s, Diagonal()) == N * X_VALUE || LineSum(s, AntiDiagonal()) == N * X_VALUE then X
    else if LineSum(s, Diagonal()) == N * O_VALUE || LineSum(s, AntiDiagonal()) == N * O_VALUE then O
    else Empty
  }

  /** The row-and-column loop (board.cpp:47-66) from index i on: for each i,
      row i or column i summing to N*X wins for X, then N*O wins for O; when
      no row or column decides, the diagonal test does. */
  function WinnerFrom(s: Cells, i: nat): Cell
    requires i <= N
    decreases N - i
  {
    if i == N then DiagonalWinner(s)
    else if LineSum(s, Row(i)) == N * X_VALUE || LineSum(s, Col(i)) == N * X_VALUE then X
    else if LineSum(s, Row(i)) == N * O_VALUE || LineSum(s, Col(i)) == N * O_VALUE then O
    else WinnerFrom(s, i + 1)
  }

  /** The diagonal test finds exactly the complete diagonals. */
  lemma DiagonalWinnerLines(s: Cells)
    ensures DiagonalWinner(s) == X ==> DiagonalLine(s, X)
    ensures DiagonalWinner(s) == O ==> DiagonalLine(s, O)
    ensures DiagonalWinner(s) == Empty <==> !DiagonalLine(s, X) && !DiagonalLine(s, O)
  {
    LineSumTest(s, Diagonal());
    LineSumTest(s, AntiDiagonal());
  }

  /** Peeling row and column i off the search from index i. */
  lemma RowOrColStep(s: Cells, p: Cell, i: nat)
    requires i < N
    ensures RowOrColFrom(s, p, i) <==>
      Complete(s, Row(i), p) || Complete(s, Col(i), p) || RowOrColFrom(s, p, i + 1)
  {
    if RowOrColFrom(s, p, i) {
      var r :| i <= r < N && (Complete(s, Row(r), p) || Complete(s, Col(r), p));
      if r != i {
        assert i + 1 <= r < N;
      }
    }
  }

  lemma {:induction false} WinnerFromLines(s: Cells, i: nat)
    requires i <= N
    ensures WinnerFrom(s, i) == X ==> RowOrColFrom(s, X, i) || DiagonalLine(s, X)
    ensures WinnerFrom(s, i) == O ==> RowOrColFrom(s, O, i) || DiagonalLine(s, O)
    ensures WinnerFrom(s, i) == Empty <==>
      !RowOrColFrom(s, X, i) && !DiagonalLine(s, X) && !RowOrColFrom(s, O, i) && !DiagonalLine(s, O)
    decreases N - i
  {
    if i == N {
      DiagonalWinnerLines(s);
    } else {
      LineSumTest(s, Row(i));
      LineSumTest(s, Col(i));
      RowOrColStep(s, X, i);
      RowOrColStep(s, O, i);
      WinnerFromLines(s, i + 1);
    }
  }

  /** The line test of getBoardScore: X when it found a line summing to N*X
      first, O for N*O, Empty when there is none. */
  function Winner(s: Cells): Cell {
    WinnerFrom(s, 0)
  }

  /** The line test reports a player only when that player has a complete
      line, and reports nobody exactly when neither has one. */
  lemma WinnerLines(s: Cells)
    ensures Winner(s) == X ==> HasLine(s, X)
    ensures Winner(s) == O ==> HasLine(s, O)
    ensures Winner(s) == Empty <==> !HasLine(s, X) && !HasLine(s, O)
  {
    WinnerFromLines(s, 0);
  }

  // ---------------------------------------------------------------------
  // Board::getBoardScore

  /** The weights of the cells `p` holds among the first k cells: xSum or
      oSum of board.cpp:107-118. */
  function WeightSum(s: Cells, w: Weights, p: Cell, k: nat): int
    requires k <= CELLS
  {
    if k == 0 then 0 else WeightSum(s, w, p, k - 1) + (if s[k - 1] == p then w[k - 1] else 0)
  }

  /** The heuristic branch of getBoardScore (board.cpp:107-120). */
  function Heuristic(b: Board): int {
    WeightSum(b.cells, b.weights, X, CELLS) * CELL_WEIGHT_X
      - WeightSum(b.cells, b.weights, O, CELLS) * CELL_WEIGHT_O
  }

  /** getBoardScore (board.cpp:42-121): a complete line decides the score
      before the weighted sum is looked at. */
  function Score(b: Board): int {
    match Winner(b.cells)
    case X => WIN_SCORE
    case O => -WIN_SCORE
    case Empty => Heuristic(b)
  }

  /** The score in terms of the lines on the board: the win score of the
      player with a line, either win score when both have one, and the
      weighted sum when nobody has one. */
  lemma ScoreCases(b: Board)
    ensures HasLine(b.cells, X) && !HasLine(b.cells, O) ==> Score(b) == WIN_SCORE
    ensures HasLine(b.cells, O) && !HasLine(b.cells, X) ==> Score(b) == -WIN_SCORE
    ensures HasLine(b.cells, X) && HasLine(b.cells, O) ==> Score(b) == WIN_SCORE || Score(b) == -WIN_SCORE
    ensures !HasLine(b.cells, X) && !HasLine(b.cells, O) ==> Score(b) == Heuristic(b)
  {
    WinnerLines(b.cells);
  }

  /** isFinished (board.cpp:34-37). */
  predicate IsFinished(b: Board) {
    Score(b) == WIN_SCORE || Score(b) == -WIN_SCORE || IsFull(b)
  }

  /** A game is over at a complete line, at a full board, or when the
      weighted sum happens to equal a win score. */
  lemma IsFinishedMeans(b: Board)
    ensures IsFinished(b) <==> HasLine(b.cells, X) || HasLine(b.cells, O) || Empties(b) == 0
                               || Heuristic(b) == WIN_SCORE || Heuristic(b) == -WIN_SCORE
  {
    ScoreCases(b);
    IsFullMeans(b);
  }

  // ---------------------------------------------------------------------
  // Board::play

  /** The outcome of play(): whether it succeeded and the board afterwards. */
  datatype Played = Played(ok: bool, board: Board)

  /** play (board.cpp:132-151). */
  function Play(b: Board, c: Coord): (r: Played)
    ensures r.ok <==> InBounds(c) && b.cells[Index(c)] == Empty
    ensures !r.ok ==> r.board == b
    ensures r.ok ==> r.board.curPlayer == Opponent(b.curPlayer) && r.board.weights == b.weights
  {
    if !InBounds(c) || b.cells[Index(c)] != Empty then
      Played(false, b)
    else
      var cells: Cells := b.cells[Index(c) := b.curPlayer];
      Played(true, Board(cells, b.weights, Opponent(b.curPlayer), Id(cells)))
  }

  /** A successful move fills exactly the chosen cell with the mover's mark,
      and the board's id is the base-3 code of the new grid, from which the
      grid can be read back. */
  lemma PlayMeans(b: Board, c: Coord)
    requires Play(b, c).ok
    ensures Play(b, c).board.cells[Index(c)] == b.curPlayer
    ensures forall k :: 0 <= k < CELLS && k != Index(c) ==> Play(b, c).board.cells[k] == b.cells[k]
    ensures Play(b, c).board.id == Id(Play(b, c).board.cells)
    ensures Decode(Play(b, c).board.id, CELLS) == Play(b, c).board.cells
  {
    DecodeId(Play(b, c).board.cells);
  }

  /** A successful play by X or O fills exactly one empty cell. */
  lemma PlayFillsOne(b: Board, c: Coord)
    requires b.curPlayer != Empty && Play(b, c).ok
    ensures Empties(Play(b, c).board) + 1 == Empties(b)
  {
    assert Play(b, c).board.cells == b.cells[Index(c) := b.curPlayer];
    CountUpdate(b.cells, Index(c), b.curPlayer, Empty);
  }

  /** A successful play keeps a position reachable and fills one empty cell. */
  lemma PlayReachable(b: Board, c: Coord, w: Weights)
    requires Reachable(b, w) && Play(b, c).ok
    ensures Reachable(Play(b, c).board, w)
    ensures Empties(Play(b, c).board) + 1 == Empties(b)
  {
    var k := Index(c);
    var after := Play(b, c).board;
    assert after.cells == b.cells[k := b.curPlayer];
    CountUpdate(b.cells, k, b.curPlayer, X);
    CountUpdate(b.cells, k, b.curPlayer, O);
    CountUpdate(b.cells, k, b.curPlayer, Empty);
  }

  // ---------------------------------------------------------------------
  // The range of genuine scores

  function AbsSum(w: seq<int>, k: nat): nat
    requires k <= |w|
  {
    if k == 0 then 0 else AbsSum(w, k - 1) + Abs(w[k - 1])
  }

  /** A weight grid whose heuristic scores stay strictly inside (-INF, INF),
      the window the searches' initial estimates assume. */
  predicate WeightsBounded(w: Weights) {
    AbsSum(w, CELLS) * (Abs(CELL_WEIGHT_X) + Abs(CELL_WEIGHT_O)) < INF
  }

  predicate InRange(v: int) {
    -INF < v < INF
  }

  lemma {:induction false} WeightSumBound(s: Cells, w: Weights, p: Cell, k: nat)
    requires k <= CELLS
    ensures Abs(WeightSum(s, w, p, k)) <= AbsSum(w, k)
  {
    if k > 0 {
      WeightSumBound(s, w, p, k - 1);
    }
  }

  lemma ProductBound(a: int, bound: nat, c: int)
    requires Abs(a) <= bound
    ensures Abs(a * c) <= bound * Abs(c)
  {
    if a >= 0 && c >= 0 {
      assert (bound - a) * c >= 0;
    } else if a >= 0 {
      assert (bound - a) * (-c) >= 0;
    } else if c >= 0 {
      assert (bound + a) * c >= 0;
    } else {
      assert (bound + a) * (-c) >= 0;
    }
  }

  lemma Distribute(a: int, b: int, c: int)
    ensures a * (b + c) == a * b + a * c
  {
  }

  lemma DifferenceInRange(p: int, q: int, bp: nat, bq: nat)
    requires Abs(p) <= bp && Abs(q) <= bq && bp + bq < INF
    ensures InRange(p - q)
  {
  }

  /** Every score of a board with a bounded weight grid lies strictly inside
      (-INF, INF), so it never equals ILLEGAL. */
  lemma ScoreInRange(b: Board)
    requires WeightsBounded(b.weights)
    ensures InRange(Score(b)) && Score(b) != ILLEGAL
  {
    var xs := WeightSum(b.cells, b.weights, X, CELLS);
    var os := WeightSum(b.cells, b.weights, O, CELLS);
    var total := AbsSum(b.weights, CELLS);
    WeightSumBound(b.cells, b.weights, X, CELLS);
    WeightSumBound(b.cells, b.weights, O, CELLS);
    ProductBound(xs, total, CELL_WEIGHT_X);
    ProductBound(os, total, CELL_WEIGHT_O);
    Distribute(total, Abs(CELL_WEIGHT_X), Abs(CELL_WEIGHT_O));
    DifferenceInRange(xs * CELL_WEIGHT_X, os * CELL_WEIGHT_O,
                      total * Abs(CELL_WEIGHT_X), total * Abs(CELL_WEIGHT_O));
  }
}
