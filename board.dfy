/**
 * The 3x3 tic-tac-toe board of one room: cell marks, the single-cell write
 * done by an accepted move, and the win and tie scans of the `play` handler
 * (index.ts:63-111).
 */
module Board {

  /** The two player colours of the `colors` table (index.ts:24-27). */
  datatype Mark = Red | Green

  /** A cell is `null` (Empty) or holds a colour. */
  datatype Cell = Empty | Filled(mark: Mark)

  /** Three rows of three cells, never resized. */
  type Board = b: seq<seq<Cell>> | |b| == 3 && forall i | 0 <= i < 3 :: |b[i]| == 3
    witness [[Empty, Empty, Empty], [Empty, Empty, Empty], [Empty, Empty, Empty]]

  function Other(m: Mark): (o: Mark)
    ensures o != m
  {
    if m == Red then Green else Red
  }

  /** The board a room is created with and reset to. */
  function EmptyBoard(): (b: Board)
    ensures forall i, j | 0 <= i < 3 && 0 <= j < 3 :: b[i][j] == Empty
  {
    [[Empty, Empty, Empty], [Empty, Empty, Empty], [Empty, Empty, Empty]]
  }

  /** `board[row][col] = v`: exactly one cell changes. */
  function SetCell(b: Board, row: int, col: int, v: Cell): (r: Board)
    requires 0 <= row < 3 && 0 <= col < 3
    ensures r[row][col] == v
    ensures forall i, j | 0 <= i < 3 && 0 <= j < 3 && (i != row || j != col) :: r[i][j] == b[i][j]
  {
    b[row := b[row][col := v]]
  }

  predicate RowFilled(b: Board, i: int, m: Mark)
    requires 0 <= i < 3
  {
    b[i][0] == Filled(m) && b[i][1] == Filled(m) && b[i][2] == Filled(m)
  }

  predicate ColumnFilled(b: Board, j: int, m: Mark)
    requires 0 <= j < 3
  {
    b[0][j] == Filled(m) && b[1][j] == Filled(m) && b[2][j] == Filled(m)
  }

  predicate DiagonalFilled(b: Board, m: Mark) {
    b[0][0] == Filled(m) && b[1][1] == Filled(m) && b[2][2] == Filled(m)
  }

  predicate AntiDiagonalFilled(b: Board, m: Mark) {
    b[0][2] == Filled(m) && b[1][1] == Filled(m) && b[2][0] == Filled(m)
  }

  /** `m` occupies one of the 3 rows, 3 columns or 2 diagonals entirely. */
  predicate Wins(b: Board, m: Mark) {
    || (exists i | 0 <= i < 3 :: RowFilled(b, i, m))
    || (exists j | 0 <= j < 3 :: ColumnFilled(b, j, m))
    || DiagonalFilled(b, m)
    || AntiDiagonalFilled(b, m)
  }

  /** No cell is empty. */
  predicate IsFull(b: Board) {
    forall i, j | 0 <= i < 3 && 0 <= j < 3 :: b[i][j] != Empty
  }

  /** One of the first `n` rows is entirely `m`. */
  predicate SomeRowFilled(b: Board, m: Mark, n: int)
    requires 0 <= n <= 3
  {
    exists i | 0 <= i < n :: RowFilled(b, i, m)
  }

  /** One of the first `n` columns is entirely `m`. */
  predicate SomeColumnFilled(b: Board, m: Mark, n: int)
    requires 0 <= n <= 3
  {
    exists j | 0 <= j < n :: ColumnFilled(b, j, m)
  }

  /** Every cell before row `i`, and the first `j` cells of row `i`, is non-empty. */
  predicate FilledBefore(b: Board, i: int, j: int)
    requires 0 <= i <= 3 && 0 <= j <= 3
  {
    forall p, q | 0 <= p < 3 && 0 <= q < 3 && (p < i || (p == i && q < j)) :: b[p][q] != Empty
  }

  /**
   * The win check of `play` (index.ts:75-101): the outer loop tests row `x`
   * and, in a nested loop, every column again; then the two diagonals. The
   * flag is only ever raised, so every line is examined.
   */
  method ScanForWin(b: Board, m: Mark) returns (won: bool)
    ensures won == Wins(b, m)
  {
    var c := Filled(m);
    won := false;
    var x := 0;
    while x < 3
      invariant 0 <= x <= 3
      invariant won == (SomeRowFilled(b, m, x) || (x > 0 && SomeColumnFilled(b, m, 3)))
    {
      var row := b[x];
      if row[0] == c && row[1] == c && row[2] == c {
        won := true;
      }
      assert SomeRowFilled(b, m, x + 1) == (SomeRowFilled(b, m, x) || RowFilled(b, x, m));
      var y := 0;
      while y < 3
        invariant 0 <= y <= 3
        invariant won == (SomeRowFilled(b, m, x + 1) || (x > 0 && SomeColumnFilled(b, m, 3)) || SomeColumnFilled(b, m, y))
      {
        if b[0][y] == c && b[1][y] == c && b[2][y] == c {
          won := true;
        }
        assert SomeColumnFilled(b, m, y + 1) == (SomeColumnFilled(b, m, y) || ColumnFilled(b, y, m));
        y := y + 1;
      }
      x := x + 1;
    }
    if b[0][0] == c && b[1][1] == c && b[2][2] == c {
      won := true;
    }
    if b[0][2] == c && b[1][1] == c && b[2][0] == c {
      won := true;
    }
  }

  /**
   * The tie check of `play` (index.ts:104-109): two nested `forEach` loops
   * lower the flag on any `null` cell.
   */
  method ScanForTie(b: Board) returns (tie: bool)
    ensures tie == IsFull(b)
  {
    tie := true;
    var i := 0;
    while i < 3
      invariant 0 <= i <= 3
      invariant tie == FilledBefore(b, i, 0)
    {
      var j := 0;
      while j < 3
        invariant 0 <= j <= 3
        invariant tie == FilledBefore(b, i, j)
      {
        if b[i][j] == Empty {
          tie := false;
        }
        j := j + 1;
      }
      assert FilledBefore(b, i, 3) == FilledBefore(b, i + 1, 0);
      i := i + 1;
    }
  }

  /** A fresh board is neither won by anyone nor tied. */
  lemma EmptyBoardUndecided(m: Mark)
    ensures !Wins(EmptyBoard(), m) && !IsFull(EmptyBoard())
  {
  }

  /**
   * Placing `m` never completes a line for the other colour: only the
   * mover can win on a move.
   */
  lemma OnlyMoverCanWin(b: Board, row: int, col: int, m: Mark)
    requires 0 <= row < 3 && 0 <= col < 3
    requires !Wins(b, Other(m))
    ensures !Wins(SetCell(b, row, col, Filled(m)), Other(m))
  {
    var r := SetCell(b, row, col, Filled(m));
    var o := Other(m);
    forall i | 0 <= i < 3
      ensures !RowFilled(r, i, o)
    {
      assert !RowFilled(b, i, o);
    }
    forall j | 0 <= j < 3
      ensures !ColumnFilled(r, j, o)
    {
      assert !ColumnFilled(b, j, o);
    }
  }
}
