/**
 The turn loop of `play_game`: the player (X) and the computer (O) take
 turns on a fresh board that is updated in place, one cell per placement.
 After each placement the mover's win is checked before the draw, and the
 game ends with +1 (player won), -1 (computer won) or 0 (draw).
 */
module Game {
  import opened Wrappers
  import opened Board
  import opened Rules
  import opened Moves

  /** How a call of play_game ends: with an outcome, or, in this model, with
      the player's entries used up while the game still waits for a move
      (where the source would be blocked in, or failing in, its next read of
      input). */
  datatype Ending = Outcome(score: int) | AwaitingInput

  /** X has as many marks as O or one more, and at most one of them has a
      line. Every position reached in play is balanced (PlayIsBalanced), but
      a balanced board need not be reachable: PlayAlternates also ties a
      line to the mark that moved last, which rules out, say, X's top row
      beside three O's. */
  predicate Balanced(g: Grid) {
    && (Count(g, X) == Count(g, O) || Count(g, X) == Count(g, O) + 1)
    && !(HasWon(g, X) && HasWon(g, O))
  }

  /** Placing `mark` on an empty cell: one empty cell fewer, one `mark` more,
      the other mark's count and its lines untouched. */
  lemma PlacementEffect(g: Grid, m: Move, mark: Cell, other: Cell)
    requires IsValidMove(g, m) && mark != Empty && other != Empty && mark != other
    ensures Count(Place(g, m, mark), Empty) == Count(g, Empty) - 1
    ensures Count(Place(g, m, mark), mark) == Count(g, mark) + 1
    ensures Count(Place(g, m, mark), other) == Count(g, other)
    ensures HasWon(Place(g, m, mark), other) ==> HasWon(g, other)
  {
    AtIndex(m);
    CountAfterPlace(g, m, mark, Empty, 9);
    CountAfterPlace(g, m, mark, mark, 9);
    CountAfterPlace(g, m, mark, other, 9);
    PlaceKeepsOtherLines(g, m, mark, other);
  }

  /** `placements` moves have been made on `g`: one mark per move, one empty
      cell fewer per move. */
  predicate Tally(g: Grid, placements: int) {
    placements == Count(g, X) + Count(g, O) && placements == 9 - Count(g, Empty)
  }

  /** A tally never exceeds the nine cells of the board. */
  lemma TallyBound(g: Grid, placements: int)
    requires Tally(g, placements)
    ensures 0 <= placements <= 9
  {
    CountsPartition(g, 9);
  }

  /** The loop's state at the top of each round: the player is to move on a
      board without a line and with an empty cell left, after `placements`
      moves, half of them X's. */
  predicate PlayerToMove(g: Grid, placements: nat) {
    && Count(g, X) == Count(g, O)
    && !HasWon(g, X) && !HasWon(g, O)
    && !IsFull(g)
    && Tally(g, placements)
  }

  /** A board with every cell empty is where the game starts. */
  lemma StartOfGame(g: Grid)
    requires forall i, j :: 0 <= i < 3 && 0 <= j < 3 ==> g[i][j] == Empty
    ensures PlayerToMove(g, 0)
  {
    CountZero(g, X, 9);
    CountZero(g, O, 9);
    CountsPartition(g, 9);
    assert !IsFull(g) by {
      assert g[0][0] == Empty;
    }
  }

  /** After the player's X: O still has no line, X is one ahead. */
  lemma PlayerPlaced(g: Grid, m: Move, placements: nat)
    requires PlayerToMove(g, placements) && IsValidMove(g, m)
    ensures Count(Place(g, m, X), X) == Count(Place(g, m, X), O) + 1
    ensures !HasWon(Place(g, m, X), O)
    ensures Tally(Place(g, m, X), placements + 1)
  {
    PlacementEffect(g, m, X, O);
  }

  /** After the computer's O, following an X that neither won nor filled the
      board: X still has no line, the counts are level again. */
  lemma ComputerPlaced(g: Grid, m: Move, placements: nat)
    requires Count(g, X) == Count(g, O) + 1 && !HasWon(g, X)
    requires Tally(g, placements)
    requires IsValidMove(g, m)
    ensures Count(Place(g, m, O), X) == Count(Place(g, m, O), O)
    ensures !HasWon(Place(g, m, O), X)
    ensures Tally(Place(g, m, O), placements + 1)
  {
    PlacementEffect(g, m, O, X);
  }

  /** The state of a game between placements: the board, how many of the
      player's entries the prompts have read, and whose turn it is. */
  datatype State = State(board: Grid, read: nat, turn: Cell)

  /** One placement `m` of play_game from state `s`, or None when play_game
      would not make it. A placement is made only while the board has no line
      and an empty cell. An X goes where the prompt's next accepted entry
      says, reading the entries up to that one; an O goes on any empty cell
      (the random pick). */
  ghost function Step(entries: seq<Entry>, s: State, m: Move): (r: Option<State>)
    requires s.read <= |entries|
    ensures r.Some? ==> r.value.read <= |entries| && IsValidMove(s.board, m)
    ensures r.Some? ==> r.value.turn == (if s.turn == X then O else X)
    ensures r.Some? ==> r.value.board == Place(s.board, m, if s.turn == X then X else O)
  {
    var g := s.board;
    if HasWon(g, X) || HasWon(g, O) || IsFull(g) then None
    else if s.turn == X then
      var k := FirstAccepted(g, entries, s.read);
      if k < |entries| && entries[k] == Entered(m) then Some(State(Place(g, m, X), k + 1, O)) else None
    else if IsValidMove(g, m) then Some(State(Place(g, m, O), s.read, X))
    else None
  }

  /** The game play_game plays on `entries`, as a specification: the state
      after the placements `h`, or None when play_game cannot make them.
      Placements alternate, X first. */
  ghost function Run(entries: seq<Entry>, h: seq<Move>): (s: Option<State>)
    ensures s.Some? ==> s.value.read <= |entries|
    decreases |h|
  {
    if h == [] then Some(State(EmptyBoard, 0, X))
    else
      match Run(entries, h[..|h| - 1])
      case None => None
      case Some(prev) => Step(entries, prev, h[|h| - 1])
  }

  /** Run extends one placement at a time. */
  lemma RunSnoc(entries: seq<Entry>, h: seq<Move>, m: Move)
    ensures Run(entries, h + [m]) == if Run(entries, h).None? then None else Step(entries, Run(entries, h).value, m)
  {
    var h' := h + [m];
    assert h'[..|h'| - 1] == h && h'[|h'| - 1] == m;
  }

  /** Every state reached in play: the turns alternate X, O, X, ..., with X
      one mark ahead exactly when O is to move; only the mark that moved last
      can have a line; and one mark per placement has been made. */
  lemma {:induction false} PlayAlternates(entries: seq<Entry>, h: seq<Move>)
    requires Run(entries, h).Some?
    ensures var s := Run(entries, h).value;
            && (s.turn == X || s.turn == O)
            && (s.turn == X ==> Count(s.board, X) == Count(s.board, O) && !HasWon(s.board, X))
            && (s.turn == O ==> Count(s.board, X) == Count(s.board, O) + 1 && !HasWon(s.board, O))
            && Tally(s.board, |h|)
    decreases |h|
  {
    if h == [] {
      StartOfGame(EmptyBoard);
    } else {
      var p, m := h[..|h| - 1], h[|h| - 1];
      assert h == p + [m];
      PlayAlternates(entries, p);
      RunSnoc(entries, p, m);
      var s := Run(entries, p).value;
      if s.turn == X {
        PlayerPlaced(s.board, m, |p|);
      } else {
        ComputerPlaced(s.board, m, |p|);
      }
    }
  }

  /** One more placement flips the parity. */
  lemma ParityStep(n: nat)
    ensures n % 2 == 0 <==> (n + 1) % 2 == 1
  {
  }

  /** X makes the placements at even positions of a game, O those at odd
      ones: O is to move exactly after an odd number of placements. */
  lemma {:induction false} TurnParity(entries: seq<Entry>, h: seq<Move>)
    requires Run(entries, h).Some?
    ensures Run(entries, h).value.turn == (if |h| % 2 == 0 then X else O)
    decreases |h|
  {
    if h != [] {
      var p, m := h[..|h| - 1], h[|h| - 1];
      assert h == p + [m];
      TurnParity(entries, p);
      RunSnoc(entries, p, m);
      assert Run(entries, h).value.turn == (if Run(entries, p).value.turn == X then O else X);
      ParityStep(|p|);
    }
  }

  /** Every position reached in play is balanced, and a line on it belongs to
      the mark that moved last: X's line only when O is to move, O's only
      when X is. */
  lemma PlayIsBalanced(entries: seq<Entry>, h: seq<Move>)
    requires Run(entries, h).Some?
    ensures Balanced(Run(entries, h).value.board)
    ensures HasWon(Run(entries, h).value.board, X) ==> Run(entries, h).value.turn == O
    ensures HasWon(Run(entries, h).value.board, O) ==> Run(entries, h).value.turn == X
  {
    PlayAlternates(entries, h);
  }

  /** No game has more than nine placements: each one fills an empty cell. */
  lemma PlayIsShort(entries: seq<Entry>, h: seq<Move>)
    requires Run(entries, h).Some?
    ensures |h| <= 9
  {
    PlayAlternates(entries, h);
    TallyBound(Run(entries, h).value.board, |h|);
  }

  /** The player's placement continues the game: X goes where the next
      accepted entry says, and reading resumes after that entry. */
  lemma PlayerExtends(entries: seq<Entry>, h: seq<Move>, g: Grid, read: nat, m: Move, next: nat)
    requires Run(entries, h) == Some(State(g, read, X))
    requires !HasWon(g, X) && !HasWon(g, O) && !IsFull(g)
    requires FirstAccepted(g, entries, read) < |entries|
    requires next == FirstAccepted(g, entries, read) + 1 && entries[next - 1] == Entered(m)
    ensures Run(entries, h + [m]) == Some(State(Place(g, m, X), next, O))
  {
    var k := next - 1;
    assert k == FirstAccepted(g, entries, read) && Accepts(g, entries[k]);
    assert InRange(m);
    assert Step(entries, State(g, read, X), m) == Some(State(Place(g, m, X), next, O));
    RunSnoc(entries, h, m);
  }

  /** The computer's placement on an empty cell continues the game. */
  lemma ComputerExtends(entries: seq<Entry>, h: seq<Move>, g: Grid, read: nat, m: Move)
    requires Run(entries, h) == Some(State(g, read, O))
    requires !HasWon(g, X) && !HasWon(g, O) && !IsFull(g)
    requires IsValidMove(g, m)
    ensures Run(entries, h + [m]) == Some(State(Place(g, m, O), read, X))
  {
    RunSnoc(entries, h, m);
  }

  /** One placement of play_game and the checks that follow it:
      `board[row][col] = mark`, then check_for_win for `mark`, then, only when
      that found no line, check_for_draw. */
  method TakeTurn(board: array2<Cell>, m: Move, mark: Cell) returns (won: bool, draw: bool)
    requires IsBoard(board) && InRange(m)
    modifies board
    ensures Snapshot(board) == Place(old(Snapshot(board)), m, mark)
    ensures won <==> HasWon(Snapshot(board), mark)
    ensures !won ==> (draw <==> IsFull(Snapshot(board)))
  {
    PlaceMark(board, m, mark);
    won := CheckForWin(board, mark);
    draw := false;
    if !won {
      draw := CheckForDraw(board);
    }
  }

  /** The player's half of a round, once a valid move has been read: place
      X there, then check for X's line and, only without one, for a full
      board. */
  method PlayerTurn(board: array2<Cell>, move: Move, ghost placements: nat,
                    ghost entries: seq<Entry>, ghost history: seq<Move>, ghost read: nat, ghost next: nat)
    returns (won: bool, draw: bool)
    requires IsBoard(board)
    requires PlayerToMove(Snapshot(board), placements) && IsValidMove(Snapshot(board), move)
    requires Run(entries, history) == Some(State(Snapshot(board), read, X))
    requires FirstAccepted(Snapshot(board), entries, read) < |entries|
    requires next == FirstAccepted(Snapshot(board), entries, read) + 1 && entries[next - 1] == Entered(move)
    modifies board
    ensures Run(entries, history + [move]) == Some(State(Snapshot(board), next, O))
    ensures Snapshot(board) == Place(old(Snapshot(board)), move, X)
    ensures Count(Snapshot(board), X) == Count(Snapshot(board), O) + 1
    ensures !HasWon(Snapshot(board), O)
    ensures Tally(Snapshot(board), placements + 1)
    ensures won <==> HasWon(Snapshot(board), X)
    ensures !won ==> (draw <==> IsFull(Snapshot(board)))
  {
    PlayerPlaced(Snapshot(board), move, placements);
    PlayerExtends(entries, history, Snapshot(board), read, move, next);
    won, draw := TakeTurn(board, move, X);
  }

  /** The computer's half of a round: pick an empty cell, place O there,
      then check for O's line and, only without one, for a full board. The
      board is not full when it is called, so `free_space` is not empty. */
  method ComputerTurn(board: array2<Cell>, ghost placements: nat,
                      ghost entries: seq<Entry>, ghost history: seq<Move>, ghost read: nat)
    returns (reply: Move, won: bool, draw: bool)
    requires IsBoard(board)
    requires Count(Snapshot(board), X) == Count(Snapshot(board), O) + 1
    requires !HasWon(Snapshot(board), X) && !HasWon(Snapshot(board), O) && !IsFull(Snapshot(board))
    requires Tally(Snapshot(board), placements)
    requires Run(entries, history) == Some(State(Snapshot(board), read, O))
    modifies board
    ensures Run(entries, history + [reply]) == Some(State(Snapshot(board), read, X))
    ensures IsValidMove(old(Snapshot(board)), reply)
    ensures Snapshot(board) == Place(old(Snapshot(board)), reply, O)
    ensures Count(Snapshot(board), X) == Count(Snapshot(board), O)
    ensures !HasWon(Snapshot(board), X)
    ensures Tally(Snapshot(board), placements + 1)
    ensures won <==> HasWon(Snapshot(board), O)
    ensures !won ==> (draw <==> IsFull(Snapshot(board)))
  {
    ghost var g := Snapshot(board);
    FullIffNoneFree(g);
    reply := ChooseComputerMove(board);
    ComputerPlaced(g, reply, placements);
    ComputerExtends(entries, history, g, read, reply);
    won, draw := TakeTurn(board, reply, O);
  }

  /** The top of play_game's loop: `history` is the game so far on
      `entries`, the player is to move on `g` after reading `read` entries,
      and one mark per placement has been made. */
  ghost predicate AwaitingPlayer(entries: seq<Entry>, g: Grid, read: nat, placements: nat, history: seq<Move>) {
    && PlayerToMove(g, placements) && |history| == placements
    && Run(entries, history) == Some(State(g, read, X))
  }

  /** What the result of play_game says about the game it played on
      `entries`. `history` is that game's placements, `last` the state they
      lead to and `final` its board. The ending is the one the final board
      shows: +1 exactly when X has a line, and X made the last placement; -1
      exactly when O has one, and O made the last placement; 0 exactly when
      the board is full and neither has a line. The game ends awaiting input
      only on the player's turn, on a board that is not full, with no entry
      left that the prompt would accept. */
  ghost predicate Concluded(entries: seq<Entry>, ending: Ending, final: Grid, placements: nat,
                            history: seq<Move>, last: State)
  {
    && Run(entries, history) == Some(last) && last.board == final
    && |history| == placements
    && (ending.Outcome? ==> ending.score in {1, -1, 0})
    && (ending == Outcome(1) <==> HasWon(final, X))
    && (ending == Outcome(-1) <==> HasWon(final, O))
    && (ending == Outcome(0) <==> IsFull(final) && !HasWon(final, X) && !HasWon(final, O))
    && (ending == Outcome(1) ==> last.turn == O)
    && (ending == Outcome(-1) ==> last.turn == X)
    && (ending == AwaitingInput ==>
          && last.turn == X && !IsFull(final) && Count(final, X) == Count(final, O)
          && FirstAccepted(final, entries, last.read) == |entries|)
    && Balanced(final)
    && Tally(final, placements)
  }

  /** A game extended by one placement still begins with the moves it began
      with. */
  lemma ExtendsPrefix(h: seq<Move>, a: seq<Move>, m: Move)
    requires h <= a
    ensures h <= a + [m]
  {
    assert (a + [m])[..|h|] == a[..|h|];
  }

  /** A game two placements longer than `h` that begins with `h` is `h`
      followed by those two. */
  lemma TwoMore(h: seq<Move>, a: seq<Move>)
    requires h <= a && |a| == |h| + 2
    ensures a == h + [a[|h|]] + [a[|h| + 1]]
  {
    var b := h + [a[|h|]] + [a[|h| + 1]];
    forall i | 0 <= i < |a|
      ensures a[i] == b[i]
    {
      if i < |h| {
        assert a[i] == a[..|h|][i];
      }
    }
  }

  /** A full round played on from a state where the player is to move puts
      X on the first of its two placements and O on the second, and nothing
      else. */
  lemma RoundPlacements(entries: seq<Entry>, h: seq<Move>, a: seq<Move>, g: Grid, read: nat)
    requires Run(entries, h) == Some(State(g, read, X))
    requires h <= a && |a| == |h| + 2 && Run(entries, a).Some?
    ensures InRange(a[|h|]) && InRange(a[|h| + 1])
    ensures Run(entries, a).value.board == Place(Place(g, a[|h|], X), a[|h| + 1], O)
  {
    var x, y := a[|h|], a[|h| + 1];
    var h1 := h + [x];
    TwoMore(h, a);
    RunSnoc(entries, h, x);
    RunSnoc(entries, h1, y);
    assert Run(entries, h1).Some?;
  }

  /** One round of play_game's loop: the player's turn and, unless that
      ended the game, the computer's. Either the game has concluded, or it
      goes on with the player to move after two more placements. */
  method PlayRound(board: array2<Cell>, entries: seq<Entry>, read: nat, placements: nat, ghost history: seq<Move>)
    returns (ending: Option<Ending>, next: nat, count: nat, ghost after: seq<Move>, ghost last: State)
    requires IsBoard(board)
    requires AwaitingPlayer(entries, Snapshot(board), read, placements, history)
    modifies board
    ensures ending.Some? ==> Concluded(entries, ending.value, Snapshot(board), count, after, last)
    ensures history <= after && |after| <= |history| + 2
    ensures ending.None? ==> AwaitingPlayer(entries, Snapshot(board), next, count, after) && count == placements + 2
    ensures ending.None? ==>
              && InRange(after[|history|]) && InRange(after[|history| + 1])
              && Snapshot(board) == Place(Place(old(Snapshot(board)), after[|history|], X), after[|history| + 1], O)
  {
    // The player's turn.
    ghost var before := Snapshot(board);
    var move;
    move, next := GetPlayerMove(board, entries, read);
    if move.None? {
      return Some(AwaitingInput), read, placements, history, State(Snapshot(board), read, X);
    }
    var won, draw := PlayerTurn(board, move.value, placements, entries, history, read, next);
    after := history + [move.value];
    ExtendsPrefix(history, history, move.value);
    count := placements + 1;
    last := State(Snapshot(board), next, O);
    if won {
      return Some(Outcome(1)), next, count, after, last;
    }
    if draw {
      return Some(Outcome(0)), next, count, after, last;
    }

    // The computer's turn: the board is not full, so a free cell exists.
    var reply;
    reply, won, draw := ComputerTurn(board, count, entries, after, next);
    ExtendsPrefix(history, after, reply);
    after := after + [reply];
    count := count + 1;
    last := State(Snapshot(board), next, X);
    if won {
      return Some(Outcome(-1)), next, count, after, last;
    }
    if draw {
      return Some(Outcome(0)), next, count, after, last;
    }
    RoundPlacements(entries, history, after, before, read);
    ending := None;
  }

  /** `play_game`. `entries` is what the player types, in order; the
      computer's random pick is a nondeterministic choice among the empty
      cells. Besides the ending it reports the final board and the number of
      placements made, and, as ghosts, the placements themselves and the
      state they lead to in the specification Run.

      The game reported is the game played: Run accepts `history` on
      `entries`, so every X went where the prompt's next accepted entry
      said, every O on an empty cell, and no placement was made after a line
      or on a full board. The ending agrees with the final board: +1 exactly
      when X has a line, -1 exactly when O has one, 0 exactly when the board
      is full and neither has. So a move that completes a line on the last
      empty cell is a win, never a draw. A game never has more than nine
      placements, and the computer is only asked to move while an empty
      cell remains (the preconditions of ComputerTurn and
      ChooseComputerMove). */
  method PlayGame(entries: seq<Entry>)
    returns (ending: Ending, final: Grid, placements: nat, ghost history: seq<Move>, ghost last: State)
    ensures ending.Outcome? ==> ending.score in {1, -1, 0}
    ensures ending == Outcome(1) <==> HasWon(final, X)
    ensures ending == Outcome(-1) <==> HasWon(final, O)
    ensures ending == Outcome(0) <==> IsFull(final) && !HasWon(final, X) && !HasWon(final, O)
    ensures Balanced(final) && Tally(final, placements)
    ensures Concluded(entries, ending, final, placements, history, last)
  {
    var board := InitialiseBoard();
    ghost var g := Snapshot(board);
    placements := 0;
    history := [];
    var read := 0;  // entries read so far
    StartOfGame(g);
    while true
      invariant IsBoard(board) && fresh(board) && g == Snapshot(board)
      invariant AwaitingPlayer(entries, g, read, placements, history)
      decreases Count(g, Empty)
    {
      var round, next, count, after, state := PlayRound(board, entries, read, placements, history);
      if round.Some? {
        return round.value, Snapshot(board), count, after, state;
      }
      g := Snapshot(board);
      read, placements, history := next, count, after;
    }
  }
}
