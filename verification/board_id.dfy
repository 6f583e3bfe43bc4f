/** The canonical board id: the cells read as a base-3 number in row-major
    order, digit 0 for an empty cell, 1 for X and 2 for O (board.cpp:126-131).
    Decoding an id gives the grid back, so the id identifies the cells. */
module BoardId {
  import opened Consts

  /** The base-3 digit play() assigns to a cell (board.cpp:146). */
  function Digit(c: Cell): nat {
    match c
    case Empty => 0
    case X => 1
    case O => 2
  }

  /** The cell a base-3 digit stands for. */
  function CellOfDigit(d: nat): (c: Cell)
    requires d < 3
    ensures Digit(c) == d
  {
    if d == 0 then Empty else if d == 1 then X else O
  }

  function Pow3(k: nat): nat {
    if k == 0 then 1 else 3 * Pow3(k - 1)
  }

  /** The value of `id` after the row-major loop of play() has visited the first
      k cells: each visited cell adds its digit times 3 to the power of its
      index (board.cpp:142-149). */
  function IdPrefix(s: seq<Cell>, k: nat): nat
    requires k <= |s|
  {
    if k == 0 then 0 else IdPrefix(s, k - 1) + Digit(s[k - 1]) * Pow3(k - 1)
  }

  /** The id of a grid: the loop run over every cell. */
  function Id(s: seq<Cell>): nat {
    IdPrefix(s, |s|)
  }

  /** Reading `n` base-3 digits of `id`, least significant first. */
  function Decode(id: nat, n: nat): (s: seq<Cell>)
    ensures |s| == n
  {
    if n == 0 then [] else [CellOfDigit(id % 3)] + Decode(id / 3, n - 1)
  }

  /** A grid of empty cells has id 0, the id the constructor stores. */
  lemma {:induction false} IdOfEmpty(s: seq<Cell>, k: nat)
    requires k <= |s|
    requires forall j :: 0 <= j < |s| ==> s[j] == Empty
    ensures IdPrefix(s, k) == 0
  {
    if k > 0 {
      IdOfEmpty(s, k - 1);
    }
  }

  /** The id of the first k cells is a k-digit base-3 number. */
  lemma {:induction false} IdPrefixBound(s: seq<Cell>, k: nat)
    requires k <= |s|
    ensures IdPrefix(s, k) < Pow3(k)
  {
    if k > 0 {
      IdPrefixBound(s, k - 1);
      assert Digit(s[k - 1]) <= 2;
      assert Digit(s[k - 1]) * Pow3(k - 1) <= 2 * Pow3(k - 1);
    }
  }

  /** Splitting off the least significant digit. */
  lemma {:induction false} IdPrefixShift(s: seq<Cell>, k: nat)
    requires k + 1 <= |s|
    ensures IdPrefix(s, k + 1) == Digit(s[0]) + 3 * IdPrefix(s[1..], k)
  {
    if k > 0 {
      IdPrefixShift(s, k - 1);
      assert s[1..][k - 1] == s[k];
      calc {
        IdPrefix(s, k + 1);
        IdPrefix(s, k) + Digit(s[k]) * Pow3(k);
        Digit(s[0]) + 3 * IdPrefix(s[1..], k - 1) + Digit(s[k]) * (3 * Pow3(k - 1));
        Digit(s[0]) + 3 * (IdPrefix(s[1..], k - 1) + Digit(s[1..][k - 1]) * Pow3(k - 1));
        Digit(s[0]) + 3 * IdPrefix(s[1..], k);
      }
    }
  }

  lemma IdCons(s: seq<Cell>)
    requires |s| > 0
    ensures Id(s) == Digit(s[0]) + 3 * Id(s[1..])
  {
    IdPrefixShift(s, |s| - 1);
  }

  /** Decoding the id of a grid gives the grid back. */
  lemma {:induction false} DecodeId(s: seq<Cell>)
    ensures Decode(Id(s), |s|) == s
  {
    if |s| > 0 {
      IdCons(s);
      var id := Id(s);
      assert id % 3 == Digit(s[0]) && id / 3 == Id(s[1..]);
      DecodeId(s[1..]);
      assert CellOfDigit(Digit(s[0])) == s[0];
      assert Decode(id, |s|) == [s[0]] + s[1..];
    }
  }

  /** Every number below 3^n is the id of the n cells it decodes to. */
  lemma {:induction false} IdDecode(id: nat, n: nat)
    requires id < Pow3(n)
    ensures Id(Decode(id, n)) == id
  {
    if n > 0 {
      var s := Decode(id, n);
      IdCons(s);
      assert s[1..] == Decode(id / 3, n - 1);
      IdDecode(id / 3, n - 1);
    }
  }

  /** Distinct grids of one size have distinct ids. */
  lemma IdInjective(a: seq<Cell>, b: seq<Cell>)
    requires |a| == |b| && Id(a) == Id(b)
    ensures a == b
  {
    DecodeId(a);
    DecodeId(b);
  }

  /** Every id of a full board fits below 3^(N*N) = 19683, well inside the
      32-bit `int` play() casts each power of three to. */
  lemma IdFits(s: seq<Cell>)
    requires |s| == CELLS
    ensures Id(s) < Pow3(CELLS) == 19683
  {
    IdPrefixBound(s, |s|);
    assert Pow3(3) == 27;
    assert Pow3(6) == 27 * Pow3(3);
    assert Pow3(9) == 27 * Pow3(6);
  }
}
