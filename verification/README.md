# Noughts and crosses, modelled in Dafny

A model of the game logic of `noughtsandcrosses.py`, a terminal game of
noughts and crosses. The player places X and the computer places O at a
random empty cell. `play_game` returns +1 when the player wins, -1 when the
computer wins and 0 for a draw. A score can be saved to a leaderboard that
maps player names to scores.

The model has six modules:

- `wrappers.dfy` (`Wrappers`): an `Option` type.
- `board.dfy` (`Board`):
  - the cells (`Empty` stands for the source's `' '`) and the 3x3 board;
  - `initialise_board`;
  - the single-cell placement `board[row][col] = mark`;
  - counting cells, and the free-cell list of `choose_computer_move`, both in row-major order.

  `play_game` updates its board in place, so the board is an `array2<Cell>`. `Snapshot` reads the array out as a `Grid` value, and the rules are stated on that value.
- `rules.dfy` (`Rules`): `check_for_win` and `check_for_draw`. Each is a read-only method that keeps the source's loops and early returns. Each is proved equal to a predicate that says what the answer means (`HasWon`: one of the eight lines is all `mark`; `IsFull`: no empty cell).
- `moves.dfy` (`Moves`):
  - `get_player_move`. Its re-prompting recursion becomes a loop over the entries the player types.
  - `choose_computer_move`. It keeps the nested loops that build `free_space`. The random pick becomes a nondeterministic choice.
- `game.dfy` (`Game`): the turn loop of `play_game`, on a board mutated in place. A ghost specification, `Run`, says which game `play_game` plays on the player's entries: placements alternate X then O, each X goes where the next accepted entry says, each O on an empty cell, and nothing is placed after a line or on a full board. `PlayGame` returns that game's placements as a ghost, and is proved to:
  - play the game `Run` describes on its entries, and end on the board that game reaches;
  - return +1, -1 or 0, each exactly when the final board shows it, with the winner the mark that moved last;
  - always report a winning move as a win, even one that fills the board;
  - never ask the computer to move on a full board;
  - make at most nine placements, because the empty cells are the loop's termination measure.
- `leaderboard.dfy` (`Leaderboard`): the update `leaders[name] = score` of `save_score`.

## Model

| member | source | states |
|---|---|---|
| Board.InitialiseBoard | noughtsandcrosses.py:41-48 | returns a fresh 3x3 board in which every cell is empty |
| Board.Place | noughtsandcrosses.py:130 | after `board[row][col] = mark` the chosen cell holds `mark` and every other cell is unchanged |
| Board.PlaceMark | noughtsandcrosses.py:130 | the in-place write changes the array's board to exactly `Place` of its old board |
| Board.CountAfterPlace | noughtsandcrosses.py:130 | a placement moves one cell from its old value's count to the mark's count; all other counts stay the same |
| Board.FreeUpToStep | noughtsandcrosses.py:77-80 | one step of the nested scan appends `(i, j)` exactly when that cell is empty |
| Board.FreeUpToComplete | noughtsandcrosses.py:76-80 | every empty cell the scan has passed is in `free_space` |
| Board.FreeUpToOrdered | noughtsandcrosses.py:76-80 | `free_space` is in strictly increasing row-major order |
| Board.FreeCellsExact | noughtsandcrosses.py:76-80 | `free_space` holds exactly the empty cells, without duplicates, in row-major order, one entry per empty cell |
| Rules.CheckForWin | noughtsandcrosses.py:87-104 | answers true exactly when a row, a column, the diagonal or the anti-diagonal is all `mark` |
| Rules.CheckForDraw | noughtsandcrosses.py:107-117 | answers true exactly when no cell is empty; it does not look at who has won |
| Rules.FullIffNoneFree | noughtsandcrosses.py:76-83 | a board is full exactly when it has no empty cell and `free_space` is empty |
| Rules.PlaceKeepsOtherLines | noughtsandcrosses.py:130-131 | placing one mark never completes a line for the other mark |
| Rules.CentreMoveScenario | noughtsandcrosses.py:93-117 | an X alone in the centre is neither a win nor a draw |
| Rules.TopRowScenario | noughtsandcrosses.py:93-95 | a top row of X is a win for X |
| Rules.FullNoLineScenario | noughtsandcrosses.py:93-117 | a full board with no line is a draw and a win for neither mark |
| Rules.FullAndWonScenario | noughtsandcrosses.py:131-136 | a full board can hold a line, so the draw check alone would misreport it; the win check comes first |
| Moves.FirstAccepted | noughtsandcrosses.py:57-66 | where the re-prompting stops when reading from `start`: at the first entry it accepts, every entry before it rejected; at the end of the entries when none is accepted |
| Moves.GetPlayerMove | noughtsandcrosses.py:51-67 | the move returned is the first entry with both coordinates in 0..2 and an empty cell; every entry before it was rejected; a move is returned exactly when FirstAccepted finds one, and reading resumes right after it; the board is not changed |
| Moves.ChooseComputerMove | noughtsandcrosses.py:70-83 | given at least one empty cell, the move returned is in `free_space`, so it addresses an empty cell |
| Game.PlacementEffect | noughtsandcrosses.py:130-139 | placing on an empty cell removes one empty cell, adds one `mark`, and leaves the other mark's count and lines alone |
| Game.StartOfGame | noughtsandcrosses.py:126-128 | the initial board starts the loop: no placements, no winner, not full |
| Game.PlayerPlaced | noughtsandcrosses.py:129-131 | after the player's X, X leads O by one and O still has no line |
| Game.ComputerPlaced | noughtsandcrosses.py:138-141 | after the computer's O, the counts are level again and X still has no line |
| Game.Step | noughtsandcrosses.py:128-146 | a placement is only ever made on an empty cell, reads no entry beyond the last, and passes the turn to the other mark |
| Game.PlayAlternates | noughtsandcrosses.py:126-146 | in every state a game reaches, the turn is X or O; X is one mark ahead exactly when O is to move; only the mark that moved last can have a line; one mark per placement |
| Game.TurnParity | noughtsandcrosses.py:126-146 | X makes the placements at even positions and O those at odd ones |
| Game.PlayIsBalanced | noughtsandcrosses.py:126-146 | every board reached in play has X level with O or one ahead and at most one line, and a line belongs to the mark that moved last |
| Game.PlayIsShort | noughtsandcrosses.py:126-146 | no game has more than nine placements |
| Game.PlayerExtends | noughtsandcrosses.py:128-129 | placing X where the next accepted entry says continues the game, with reading resumed after that entry and O to move |
| Game.ComputerExtends | noughtsandcrosses.py:138-139 | placing O on an empty cell continues the game, with X to move and no entry read |
| Game.PlayerTurn | noughtsandcrosses.py:129-136 | the player's X goes into exactly the chosen empty cell and extends the game by that placement; afterwards X leads O by one, O has no line, one more placement is counted, and the win and draw answers match the new board |
| Game.ComputerTurn | noughtsandcrosses.py:138-146 | on a board that is not full, the computer's O goes into an empty cell and extends the game by that placement; afterwards the counts are level, X has no line, one more placement is counted, and the win and draw answers match the new board |
| Game.TakeTurn | noughtsandcrosses.py:130-136 | one placement, then the win check, then the draw check only if there is no win |
| Game.PlayRound | noughtsandcrosses.py:128-146 | one pass of the loop continues the game it was given: the moves it returns begin with the moves made so far and add at most two; either the game has concluded, with the ending its board shows, or the player is to move again after exactly two more placements, X on the first and O on the second, and nothing else on the board changed |
| Game.RoundPlacements | noughtsandcrosses.py:128-139 | a round of two placements from the player's turn puts X on the first cell and O on the second, on the board the round started from |
| Game.PlayGame | noughtsandcrosses.py:120-146 | the placements made are a game `Run` accepts on the entries, ending on the final board; the result is +1, -1 or 0, and exactly when X has a line, O has a line, or the board is full with no line; +1 only after X's move and -1 only after O's; it stops awaiting input only on the player's turn with no acceptable entry left; the final board is balanced; the computer is only asked to move while a cell is empty |
| Leaderboard.SaveScore | noughtsandcrosses.py:183 | the name maps to the new score, no other key is added or removed, and every other score is unchanged |
| Leaderboard.SaveScoreSize | noughtsandcrosses.py:183 | the leaderboard grows by one entry exactly when the name is new |
| Leaderboard.LastSaveWins | noughtsandcrosses.py:183 | saving twice under one name keeps only the last score |
| Leaderboard.SavesCommute | noughtsandcrosses.py:183 | saves under different names can be done in either order |
| Leaderboard.SaveExistingScore | noughtsandcrosses.py:183 | re-saving a name's current score changes nothing |

## Left out

- `draw_board`, `welcome`, `menu` and `display_leaderboard` (noughtsandcrosses.py:14-38, 149-160, 189-196). They are only terminal output and input. So are the messages `play_game` prints.
- `load_scores` and the file and JSON handling of `save_score` (noughtsandcrosses.py:163-187). This is file I/O through a library serialiser. The model keeps only the map update. `Leaderboard.SaveScore` takes the loaded map and returns the map that is written back and returned. The typed name is a parameter.
- SaveScore: a Python dict keeps insertion order. An existing name keeps its place and a new name goes last (noughtsandcrosses.py:183). `json.dumps` (noughtsandcrosses.py:185) and `display_leaderboard` (noughtsandcrosses.py:195) follow that order. A Dafny `map` has no order, so the model does not capture it.
- `random.seed` and `random.choice` (noughtsandcrosses.py:11, 82). The pick is a nondeterministic choice from `free_space`.
- ChooseComputerMove: the pick is proved to be one of the free cells. That it is uniformly random is not modelled.
- The `int(input(...))` parsing in `get_player_move` (noughtsandcrosses.py:58-59). Each prompt round is an `Entry`: either two integers, or text that `int` rejects, for either coordinate.
- GetPlayerMove: the source re-prompts by calling itself inside its `except` handler (noughtsandcrosses.py:64-66). About a thousand rejected entries in a row exceed Python's recursion limit. The resulting `RecursionError` is not a `ValueError`, so it escapes and ends `play_game`. The model's loop accepts an entry after any number of rejections.
- GetPlayerMove: at the end of the player's input, `input()` raises `EOFError`, which the source does not catch. The model reads a finite sequence of entries and returns `None` when none of them is accepted.
- PlayGame: `AwaitingInput` stands where the source would block in `input()` or fail with the uncaught `EOFError` or `RecursionError`. For that ending the model states that it is the player's turn, that the board is not full, and that no entry left is acceptable.
- The `play_game.py` session loop (play_game.py:7-39). It is menu dispatch over I/O, and it keeps `total_score`. The placeholder board it passes to `play_game` is discarded by `initialise_board`. So the model's `InitialiseBoard` and `PlayGame` take no board parameter.
- The rules are stated on the board's value. `Snapshot` reads the 3x3 array into a `Grid`. No two boards are aliased in the source, so aliasing is not modelled.
