/**
 Where the moves come from: the player's typed (row, col) pairs, accepted
 only when they address an empty cell on the board, and the computer's pick
 among the empty cells.

 Typing and parsing are outside the model: the player's input is a sequence
 of entries, each either a pair of integers or something `int(...)` would
 reject. The random pick is a nondeterministic choice.
 */
module Moves {
  import opened Wrappers
  import opened Board

  /** One round of the prompt: two integers, or text that is not a number. */
  datatype Entry = Entered(move: Move) | NotANumber

  /** The test `get_player_move` applies: both coordinates in 0..2 (checked
      first, so the board is never indexed out of range) and the cell empty. */
  predicate IsValidMove(g: Grid, m: Move) {
    InRange(m) && CellAt(g, m) == Empty
  }

  predicate Accepts(g: Grid, e: Entry) {
    e.Entered? && IsValidMove(g, e.move)
  }

  /** Where the re-prompting of `get_player_move` stops when it reads from
      position `start`: at the first entry it accepts, or at the end of the
      entries when it accepts none. */
  function FirstAccepted(g: Grid, entries: seq<Entry>, start: nat): (k: nat)
    requires start <= |entries|
    ensures start <= k <= |entries|
    ensures k < |entries| ==> Accepts(g, entries[k])
    ensures forall i :: start <= i < k ==> !Accepts(g, entries[i])
    decreases |entries| - start
  {
    if start == |entries| then start
    else if Accepts(g, entries[start]) then start
    else FirstAccepted(g, entries, start + 1)
  }

  /** `get_player_move`, with its re-prompting recursion written as a loop:
      reading from position `start` of the player's entries, the first
      acceptable entry is the move, every entry read before it was rejected,
      and `next` is the position after the last entry read. With no
      acceptable entry left the prompt is still waiting (None). The board is
      only read, so rejected entries leave it untouched. */
  method GetPlayerMove(a: array2<Cell>, entries: seq<Entry>, start: nat) returns (move: Option<Move>, next: nat)
    requires IsBoard(a) && start <= |entries|
    ensures start <= next <= |entries|
    ensures move.Some? ==>
              start < next && entries[next - 1] == Entered(move.value) && IsValidMove(Snapshot(a), move.value)
    ensures move.None? ==> next == |entries|
    ensures forall k :: start <= k < next && (move.Some? ==> k < next - 1) ==> !Accepts(Snapshot(a), entries[k])
    ensures move.Some? <==> FirstAccepted(Snapshot(a), entries, start) < |entries|
    ensures move.Some? ==> next == FirstAccepted(Snapshot(a), entries, start) + 1
  {
    next := start;
    while next < |entries|
      invariant start <= next <= |entries|
      invariant forall k :: start <= k < next ==> !Accepts(Snapshot(a), entries[k])
      invariant FirstAccepted(Snapshot(a), entries, next) == FirstAccepted(Snapshot(a), entries, start)
    {
      var entry := entries[next];
      next := next + 1;
      if entry.Entered? {
        var m := entry.move;
        if 0 <= m.row <= 2 && 0 <= m.col <= 2 && a[m.row, m.col] == Empty {
          return Some(m), next;
        }
      }
    }
    return None, next;
  }

  /** `choose_computer_move`: list the empty cells in row-major order, then
      pick one of them. The list must not be empty: the source leaves `row`
      and `col` unbound otherwise. */
  method ChooseComputerMove(a: array2<Cell>) returns (move: Move)
    requires IsBoard(a)
    requires FreeCells(Snapshot(a)) != []
    ensures move in FreeCells(Snapshot(a))
    ensures IsValidMove(Snapshot(a), move)
  {
    ghost var g := Snapshot(a);
    ghost var n := 0;  // row-major position of cell (i, j)
    var freeSpace: seq<Move> := [];
    for i := 0 to 3
      invariant n == 3 * i
      invariant freeSpace == FreeUpTo(g, n)
    {
      for j := 0 to 3
        invariant n == 3 * i + j
        invariant freeSpace == FreeUpTo(g, n)
      {
        FreeUpToStep(g, i, j);
        if a[i, j] == Empty {
          freeSpace := freeSpace + [Move(i, j)];
        }
        n := n + 1;
      }
    }
    FreeUpToSound(g, 9);
    var k :| 0 <= k < |freeSpace|;
    move := freeSpace[k];
  }
}
