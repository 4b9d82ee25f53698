/**
 The noughts-and-crosses board: its cells, the 3x3 grid they form, the
 single-cell placement that is the only way the game changes a board, and
 counting in row-major order (row 0 left to right, then row 1, then row 2).

 The game keeps its board in a 3x3 array that it updates in place; the rules
 are stated on the grid VALUE read out of that array (Snapshot).
 */
module Board {

  /** A cell holds nothing (the single space ' ' of the source) or a mark. */
  datatype Cell = Empty | X | O

  /** A (row, column) pair, as the player types it or the computer picks it. */
  datatype Move = Move(row: int, col: int)

  /** A board as a value: exactly three rows of exactly three cells. */
  type Grid = g: seq<seq<Cell>> | |g| == 3 && forall i :: 0 <= i < 3 ==> |g[i]| == 3
    witness [[Empty, Empty, Empty], [Empty, Empty, Empty], [Empty, Empty, Empty]]

  /** The board `initialise_board` builds: every cell empty. */
  const EmptyBoard: Grid := [[Empty, Empty, Empty], [Empty, Empty, Empty], [Empty, Empty, Empty]]

  /** Both coordinates lie in 0..2. */
  predicate InRange(m: Move) {
    0 <= m.row <= 2 && 0 <= m.col <= 2
  }

  /** Position of a cell in row-major order. */
  function Index(m: Move): int {
    3 * m.row + m.col
  }

  /** The cell at row-major position n. */
  function At(n: nat): (m: Move)
    requires n < 9
    ensures InRange(m) && Index(m) == n
  {
    if n < 3 then Move(0, n) else if n < 6 then Move(1, n - 3) else Move(2, n - 6)
  }

  /** Row-major positions name cells one to one. */
  lemma AtIndex(m: Move)
    requires InRange(m)
    ensures 0 <= Index(m) < 9 && At(Index(m)) == m
  {
  }

  function CellAt(g: Grid, m: Move): Cell
    requires InRange(m)
  {
    g[m.row][m.col]
  }

  /** The board of the array `a`, which must be 3x3. */
  predicate IsBoard(a: array2<Cell>) {
    a.Length0 == 3 && a.Length1 == 3
  }

  function Snapshot(a: array2<Cell>): (g: Grid)
    requires IsBoard(a)
    reads a
    ensures forall i, j :: 0 <= i < 3 && 0 <= j < 3 ==> g[i][j] == a[i, j]
  {
    [[a[0, 0], a[0, 1], a[0, 2]],
     [a[1, 0], a[1, 1], a[1, 2]],
     [a[2, 0], a[2, 1], a[2, 2]]]
  }

  /** `initialise_board`: a fresh 3x3 board whose every cell is empty. */
  method InitialiseBoard() returns (a: array2<Cell>)
    ensures fresh(a) && IsBoard(a)
    ensures forall i, j :: 0 <= i < 3 && 0 <= j < 3 ==> a[i, j] == Empty
    ensures Snapshot(a) == EmptyBoard
  {
    a := new Cell[3, 3]((i, j) => Empty);
  }

  /** `board[row][col] = mark` on a board value: the target cell holds `mark`,
      every other cell is as before. */
  function Place(g: Grid, m: Move, mark: Cell): (r: Grid)
    requires InRange(m)
    ensures CellAt(r, m) == mark
    ensures forall p :: InRange(p) && p != m ==> CellAt(r, p) == CellAt(g, p)
  {
    g[m.row := g[m.row][m.col := mark]]
  }

  /** `board[row][col] = mark` on the game's array: the placement that
      play_game performs, and nothing else. */
  method PlaceMark(a: array2<Cell>, m: Move, mark: Cell)
    requires IsBoard(a) && InRange(m)
    modifies a
    ensures Snapshot(a) == Place(old(Snapshot(a)), m, mark)
  {
    ghost var before := Snapshot(a);
    a[m.row, m.col] := mark;
    ghost var after := Snapshot(a);
    ghost var placed := Place(before, m, mark);
    forall i, j | 0 <= i < 3 && 0 <= j < 3
      ensures after[i][j] == placed[i][j]
    {
      assert placed[i][j] == CellAt(placed, Move(i, j));
    }
    assert after[0] == placed[0] && after[1] == placed[1] && after[2] == placed[2];
  }

  /** Number of cells equal to `v` among the first `n` cells in row-major order. */
  function CountUpTo(g: Grid, v: Cell, n: nat): (c: nat)
    requires n <= 9
    ensures c <= n
  {
    if n == 0 then 0
    else CountUpTo(g, v, n - 1) + (if CellAt(g, At(n - 1)) == v then 1 else 0)
  }

  /** Number of cells of the whole board equal to `v`. The bound `3 * |g|`
      is the nine cells of the board, written through the grid so that the
      count is unfolded one cell at a time rather than all at once. */
  function Count(g: Grid, v: Cell): nat {
    CountUpTo(g, v, 3 * |g|)
  }

  /** Every cell is empty, X or O, so the three counts add up to the cells seen. */
  lemma {:induction false} CountsPartition(g: Grid, n: nat)
    requires n <= 9
    ensures CountUpTo(g, X, n) + CountUpTo(g, O, n) + CountUpTo(g, Empty, n) == n
  {
    if n > 0 {
      CountsPartition(g, n - 1);
    }
  }

  /** No cell among the first n equals v exactly when the count is zero. */
  lemma {:induction false} CountZero(g: Grid, v: Cell, n: nat)
    requires n <= 9
    ensures CountUpTo(g, v, n) == 0 <==> forall k :: 0 <= k < n ==> CellAt(g, At(k)) != v
  {
    if n > 0 {
      CountZero(g, v, n - 1);
      assert CountUpTo(g, v, n) == CountUpTo(g, v, n - 1) + (if CellAt(g, At(n - 1)) == v then 1 else 0);
      if CountUpTo(g, v, n) == 0 {
        forall k | 0 <= k < n
          ensures CellAt(g, At(k)) != v
        {
          if k < n - 1 {
            assert CellAt(g, At(k)) != v;
          }
        }
      }
    }
  }

  /** Placing `mark` over the cell at `m` moves that cell from its old value's
      count to `mark`'s count and leaves every other count alone. */
  lemma {:induction false} CountAfterPlace(g: Grid, m: Move, mark: Cell, v: Cell, n: nat)
    requires InRange(m) && n <= 9
    ensures CountUpTo(Place(g, m, mark), v, n)
            == CountUpTo(g, v, n)
               - (if Index(m) < n && CellAt(g, m) == v then 1 else 0)
               + (if Index(m) < n && mark == v then 1 else 0)
  {
    if n > 0 {
      CountAfterPlace(g, m, mark, v, n - 1);
      var r := Place(g, m, mark);
      var p := At(n - 1);
      assert CountUpTo(r, v, n) == CountUpTo(r, v, n - 1) + (if CellAt(r, p) == v then 1 else 0);
      assert CountUpTo(g, v, n) == CountUpTo(g, v, n - 1) + (if CellAt(g, p) == v then 1 else 0);
      AtIndex(m);
      if p == m {
        assert Index(m) == n - 1 && CellAt(r, p) == mark;
      } else {
        assert Index(m) != n - 1 && CellAt(r, p) == CellAt(g, p);
      }
    }
  }

  /** `free_space` of choose_computer_move after the first n cells: the
      coordinates of the empty cells among them, in row-major order. */
  function FreeUpTo(g: Grid, n: nat): (free: seq<Move>)
    requires n <= 9
    ensures |free| == CountUpTo(g, Empty, n)
  {
    if n == 0 then []
    else FreeUpTo(g, n - 1) + (if CellAt(g, At(n - 1)) == Empty then [At(n - 1)] else [])
  }

  /** Only empty cells among the first n are listed. */
  lemma {:induction false} FreeUpToSound(g: Grid, n: nat)
    requires n <= 9
    ensures forall k :: 0 <= k < |FreeUpTo(g, n)| ==>
              InRange(FreeUpTo(g, n)[k]) && Index(FreeUpTo(g, n)[k]) < n && CellAt(g, FreeUpTo(g, n)[k]) == Empty
  {
    if n > 0 {
      FreeUpToSound(g, n - 1);
    }
  }

  /** One step of the row-major scan: cell (i, j) is the next one looked at. */
  lemma FreeUpToStep(g: Grid, i: int, j: int)
    requires 0 <= i < 3 && 0 <= j < 3
    ensures FreeUpTo(g, 3 * i + j + 1)
            == FreeUpTo(g, 3 * i + j) + (if g[i][j] == Empty then [Move(i, j)] else [])
  {
  }

  /** The complete `free_space` list of the board. */
  function FreeCells(g: Grid): seq<Move> {
    FreeUpTo(g, 3 * |g|)
  }

  /** Every empty cell among the first n is listed. */
  lemma {:induction false} FreeUpToComplete(g: Grid, n: nat, m: Move)
    requires n <= 9
    requires InRange(m) && Index(m) < n && CellAt(g, m) == Empty
    ensures m in FreeUpTo(g, n)
  {
    AtIndex(m);
    if Index(m) < n - 1 {
      FreeUpToComplete(g, n - 1, m);
    }
  }

  /** The list runs in strictly increasing row-major order. */
  lemma {:induction false} FreeUpToOrdered(g: Grid, n: nat)
    requires n <= 9
    ensures forall p, q :: 0 <= p < q < |FreeUpTo(g, n)| ==>
              Index(FreeUpTo(g, n)[p]) < Index(FreeUpTo(g, n)[q])
  {
    if n > 0 {
      FreeUpToOrdered(g, n - 1);
      FreeUpToSound(g, n - 1);
    }
  }

  /** FreeCells holds exactly the empty cells, each once, in row-major order,
      and has as many entries as the board has empty cells. */
  lemma FreeCellsExact(g: Grid)
    ensures forall m :: m in FreeCells(g) <==> InRange(m) && CellAt(g, m) == Empty
    ensures forall p, q :: 0 <= p < q < |FreeCells(g)| ==>
              Index(FreeCells(g)[p]) < Index(FreeCells(g)[q])
    ensures forall p, q :: 0 <= p < q < |FreeCells(g)| ==> FreeCells(g)[p] != FreeCells(g)[q]
    ensures |FreeCells(g)| == Count(g, Empty)
  {
    forall m | InRange(m) && CellAt(g, m) == Empty
      ensures m in FreeCells(g)
    {
      AtIndex(m);
      FreeUpToComplete(g, 9, m);
    }
    FreeUpToSound(g, 9);
    FreeUpToOrdered(g, 9);
  }
}
