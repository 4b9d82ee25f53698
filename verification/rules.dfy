/**
 The rules engine: `check_for_win` and `check_for_draw`.

 Each is stated twice: a predicate that says what the answer means (HasWon:
 one of the eight lines is all `mark`; IsFull: no empty cell is left) and a
 read-only method that scans the board the way the source does, with its
 early returns, proved to give exactly the predicate's answer.
 */
module Rules {
  import opened Board

  /** Three cells in a straight line. */
  datatype Line = Line(first: Move, second: Move, third: Move)

  function Row(i: int): Line {
    Line(Move(i, 0), Move(i, 1), Move(i, 2))
  }

  function Column(j: int): Line {
    Line(Move(0, j), Move(1, j), Move(2, j))
  }

  const Diagonal: Line := Line(Move(0, 0), Move(1, 1), Move(2, 2))
  const AntiDiagonal: Line := Line(Move(0, 2), Move(1, 1), Move(2, 0))

  predicate OnBoard(l: Line) {
    InRange(l.first) && InRange(l.second) && InRange(l.third)
  }

  /** All three cells of the line hold `mark`. */
  predicate Completes(g: Grid, l: Line, mark: Cell)
    requires OnBoard(l)
  {
    CellAt(g, l.first) == mark && CellAt(g, l.second) == mark && CellAt(g, l.third) == mark
  }

  /** What check_for_win answers: one of the eight lines (three rows, three
      columns, two diagonals) is all `mark`. */
  predicate HasWon(g: Grid, mark: Cell) {
    || Completes(g, Row(0), mark) || Completes(g, Row(1), mark) || Completes(g, Row(2), mark)
    || Completes(g, Column(0), mark) || Completes(g, Column(1), mark) || Completes(g, Column(2), mark)
    || Completes(g, Diagonal, mark) || Completes(g, AntiDiagonal, mark)
  }

  /** What check_for_draw answers: no cell is empty. */
  predicate IsFull(g: Grid) {
    forall i, j :: 0 <= i < 3 && 0 <= j < 3 ==> g[i][j] != Empty
  }

  /** `check_for_win`: rows and columns in one loop, then the two diagonals. */
  method CheckForWin(a: array2<Cell>, mark: Cell) returns (won: bool)
    requires IsBoard(a)
    ensures won <==> HasWon(Snapshot(a), mark)
  {
    ghost var g := Snapshot(a);
    for i := 0 to 3
      invariant forall k :: 0 <= k < i ==> !Completes(g, Row(k), mark)
      invariant forall k :: 0 <= k < i ==> !Completes(g, Column(k), mark)
    {
      if a[i, 0] == mark && a[i, 1] == mark && a[i, 2] == mark {
        assert Completes(g, Row(i), mark);
        return true;
      }
      if a[0, i] == mark && a[1, i] == mark && a[2, i] == mark {
        assert Completes(g, Column(i), mark);
        return true;
      }
    }
    if a[0, 0] == mark && a[1, 1] == mark && a[2, 2] == mark {
      return true;
    }
    if a[0, 2] == mark && a[1, 1] == mark && a[2, 0] == mark {
      return true;
    }
    return false;
  }

  /** `check_for_draw`: a row-major scan that stops at the first empty cell.
      It never looks at who has won. */
  method CheckForDraw(a: array2<Cell>) returns (draw: bool)
    requires IsBoard(a)
    ensures draw <==> IsFull(Snapshot(a))
  {
    for i := 0 to 3
      invariant forall p, q :: 0 <= p < i && 0 <= q < 3 ==> a[p, q] != Empty
    {
      for j := 0 to 3
        invariant forall q :: 0 <= q < j ==> a[i, q] != Empty
      {
        if a[i, j] == Empty {
          return false;
        }
      }
    }
    return true;
  }

  /** A full board is one with no empty cell to count and none to offer. */
  lemma FullIffNoneFree(g: Grid)
    ensures IsFull(g) <==> Count(g, Empty) == 0
    ensures IsFull(g) <==> FreeCells(g) == []
  {
    CountZero(g, Empty, 9);
    FreeCellsExact(g);
    if !IsFull(g) {
      var i, j :| 0 <= i < 3 && 0 <= j < 3 && g[i][j] == Empty;
      AtIndex(Move(i, j));
      assert CellAt(g, At(Index(Move(i, j)))) == Empty;
    }
  }

  /** Placing one mark never completes a line for a different mark. */
  lemma PlaceKeepsOtherLines(g: Grid, m: Move, mark: Cell, other: Cell)
    requires InRange(m) && mark != other
    ensures HasWon(Place(g, m, mark), other) ==> HasWon(g, other)
  {
  }

  /** An X alone in the centre of an empty board is neither a win nor a draw. */
  lemma CentreMoveScenario()
    ensures var centre := Place(EmptyBoard, Move(1, 1), X);
            !HasWon(centre, X) && !IsFull(centre)
  {
  }

  /** A top row of X is a win for X. */
  lemma TopRowScenario()
    ensures HasWon([[X, X, X], [Empty, Empty, Empty], [Empty, Empty, Empty]], X)
  {
  }

  /** A full board without a line for either mark is a draw with no winner. */
  lemma FullNoLineScenario()
    ensures var full := [[X, O, X], [X, O, O], [O, X, X]];
            !HasWon(full, X) && !HasWon(full, O) && IsFull(full)
  {
  }

  /** A full board can hold a winning line, so a win must be checked before a
      draw: check_for_draw alone would call this board a draw. */
  lemma FullAndWonScenario()
    ensures var won := [[X, O, X], [O, X, O], [O, X, X]];
            HasWon(won, X) && IsFull(won)
  {
  }
}
