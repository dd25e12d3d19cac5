# Connect Four rules engine, modelled in Dafny

This project models the rules engine of a Connect Four game: a 6 x 7 grid
of cells holding `None`, `Red` or `Yellow`, discs dropped into columns under
gravity, the structural checks that every grid must pass, the search for
four discs in a row, and the game object that keeps the player on turn, the
game-over flag and the winner.

The model follows the two classes of the source:

- `Grids.Grid` (grid.dfy) is the grid: a class over an `array2<Player>` that
  clears, drops and searches in place. `Grids.Validate` is the source's
  private structural check (row count, column count, balance of red and
  yellow discs, gravity), with its counting and column-scanning loops in the
  helpers `CountDiscs` and `HasFloatingDisc`.
- `Games.Game` (game.dfy) is the game: a class whose drop and reset change
  the player on turn, the game-over flag, the winner and the owned grid.

Each state-changing method is proved against a function on values:
`Board.DropDisc` (board.dfy) says what a grid drop returns or throws and
which board it leaves, and `Turns.Step` / `Turns.Restart` (turns.dfy) say the
same for a game drop and a game reset. The properties of the rules are
lemmas about those functions. scenarios.dfy restates concrete games of the
test suite as lemmas, and plays two games side by side to show that each
new game owns its own grid.

Exceptions are values: `Result<T, Error>` with
`Error = ArgumentException(reason) | InvalidOperationException(reason)`.
The `Reason` names the message the source attaches: wrong row count, wrong
column count, unbalanced discs, floating discs, column out of range, or no
player. A Dafny constructor cannot fail. So the Dafny constructors require
the condition under which the source's constructor returns normally, and
the static methods `Grid.FromMatrix`, `Game.Create` and
`Game.CreateWithGrid` return the exception the source throws.

The game's drop assigns only what each branch names. The draw branch
(Game.cs:42-43) does not assign `Winner`, and the ordinary branch
(Game.cs:44-46) does not assign `GameOver`. A drop is forwarded to the grid
even after the game is over (Game.cs:37-48). The model keeps all of this.
In every game reachable through the constructors, `Reset` and `Drop`, while
no one else changes a grid the game shares with its caller, these gaps are
never seen, because of an invariant kept by every game
(`Turns.Outcome`): a winner is the player on turn, has a line on the board
and has ended the game, and a game over without a winner has a full board.
So a draw leaves no winner, and an ordinary move leaves the game not over
and without a winner. Once a game is won, only the winner moves: each of its
discs that lands wins again, and any other drop changes nothing. Once a
game is drawn, every drop into a column of the board is a no-op, and any
other column is refused with an argument error and changes nothing.

## Model

| member | source | states |
|---|---|---|
| `Board.FirstViolation` | ConnectFour/Grid.cs:91-133 | no violation exactly when the matrix has 6 rows of 7 cells, red and yellow counts differ by at most one, and no disc stands above an empty cell; a wrong row count is reported first |
| `Board.LowestEmptyFrom` | ConnectFour/Grid.cs:49-50 | the cell found is empty, lies at or above the start row, and every cell below it in the column holds a disc; when none is found the scanned part of the column is full |
| `Board.DropDisc` | ConnectFour/Grid.cs:46-60 | a drop always leaves a 6 x 7 board, and a valid board stays valid |
| `Board.CountPlace` | ConnectFour/Grid.cs:104-112 | writing one cell changes a player's disc count by one for the disc that left and one for the disc that came in, and nothing else |
| `Board.EmptyBoardIsValid` | ConnectFour/Grid.cs:42-44 | the cleared board holds no red and no yellow disc, passes every structural check and is not full |
| `Board.PlaceAtLowestKeepsGravity` | ConnectFour/Grid.cs:49-56 | a disc placed in the lowest empty cell of a column keeps the board's shape and the gravity rule |
| `Board.DropRollsBackExactlyWhenAhead` | ConnectFour/Grid.cs:52-55 | on a valid board, a drop into a column with room is undone exactly when the dropping player already has one disc more; it then throws an invalid-operation error naming the disc balance and the board is unchanged |
| `Board.DropByPlayerNotAhead` | ConnectFour/Grid.cs:49-56 | a drop by a player who is not ahead returns true, lands in the lowest empty cell, keeps the board valid and adds exactly one disc of that player |
| `Board.DropChangesOnlyLandingCell` | ConnectFour/Grid.cs:49-56 | after a successful drop the disc is in the lowest empty cell of the column, every cell below it holds a disc, and no other cell changed |
| `Board.DropFailureLeavesBoard` | ConnectFour/Grid.cs:46-60 | a drop that does not return true leaves the board unchanged; it throws an argument error exactly for a column outside [0, 7) and returns false exactly when the column has no empty cell |
| `Board.FullIffEveryColumnRefuses` | ConnectFour/Grid.cs:13 | the board is full exactly when a drop into every column returns false |
| `Board.HasFourSurvivesPlacement` | ConnectFour/Grid.cs:62-89 | a line of four of a player is still there after any disc lands on an empty cell |
| `Board.LoneDiscMakesNoLine` | ConnectFour/Grid.cs:62-89 | a player with a single disc on the board has no four in a row |
| `Grids.Validate` | ConnectFour/Grid.cs:91-133 | returns the first structural check the matrix fails, in the source's order, or nothing when it passes them all |
| `Grids.CountDiscs` | ConnectFour/Grid.cs:104-112 | the cell-by-cell loop counts exactly the red and the yellow discs of the matrix |
| `Grids.HasFloatingDisc` | ConnectFour/Grid.cs:118-129 | the bottom-up column scan reports a disc above an empty cell exactly when the gravity rule is broken |
| `Grids.Grid.constructor` | ConnectFour/Grid.cs:15-18 | a new grid is 6 x 7, valid, and has every cell empty |
| `Grids.Grid.Adopt` | ConnectFour/Grid.cs:20-23 | takes a matrix that passes every structural check and keeps it as the grid's cells |
| `Grids.Grid.FromMatrix` | ConnectFour/Grid.cs:20-23 | a matrix failing a structural check is refused with an argument error naming the first check it fails; otherwise the grid keeps the caller's matrix cell for cell |
| `Grids.Grid.Get` | ConnectFour/Grid.cs:11 | reads the cell at (r, c) of the grid's board |
| `Grids.Grid.Full` | ConnectFour/Grid.cs:13 | true exactly when no cell is empty |
| `Grids.Grid.Reset` | ConnectFour/Grid.cs:42-44 | whatever the grid held, every cell is empty afterwards and the grid is valid |
| `Grids.Grid.Drop` | ConnectFour/Grid.cs:46-60 | the result and the new cells are those of `DropDisc` on the old cells: argument error for a bad column before any change, false for a full column, otherwise the disc in the lowest empty cell, undone with an invalid-operation error if a check fails; the grid stays valid |
| `Grids.Grid.Walk` | ConnectFour/Grid.cs:72-83 | the walk from a cell in one direction counts at least four cells exactly when four cells from there in that direction lie on the board and hold the player |
| `Grids.Grid.HasFourInARow` | ConnectFour/Grid.cs:62-89 | true exactly when some cell starts four cells of the player, all on the board, vertically, horizontally or along either diagonal |
| `Board.Flip` | ConnectFour/Game.cs:45 | the next player is never `None` and never the current one |
| `Turns.Step` | ConnectFour/Game.cs:37-48 | a drop keeps the board 6 x 7 and a valid board valid; an error leaves the game as it was; a game over stays over; the winner changes only to the mover, who then has a line and has ended the game |
| `Turns.Restart` | ConnectFour/Game.cs:29-35 | a restart fails exactly for `None` and then changes nothing; otherwise the given player is on turn on a board without discs, the game is not over and there is no winner |
| `Turns.RestartIsWellFormed` | ConnectFour/Game.cs:29-35 | a restart fails exactly for `None`; otherwise the board is empty and valid, the given player is on turn, the game is not over and there is no winner |
| `Turns.WinnerKeepsLine` | ConnectFour/Game.cs:37-41 | in a well-formed game with a winner, a disc the winner drops leaves its line in place |
| `Turns.StepKeepsWellFormed` | ConnectFour/Game.cs:37-48 | a drop keeps the board valid, someone on turn, and the game-over flag and winner in agreement with the board; the player on turn afterwards is the same or the other one |
| `Turns.GameOverIsFinal` | ConnectFour/Game.cs:37-48 | once a well-formed game is over, every drop keeps it over with the same winner and the same player on turn |
| `Turns.FullColumnIsNoOp` | ConnectFour/Game.cs:38 | a drop into a full column changes nothing and throws nothing |
| `Turns.BadColumnIsRefused` | ConnectFour/Game.cs:38 | a column outside the board is refused with an argument error and the game is unchanged |
| `Turns.WinningDrop` | ConnectFour/Game.cs:39-41 | a drop that completes four in a row makes the mover the winner and ends the game without handing the turn over |
| `Turns.DrawingDrop` | ConnectFour/Game.cs:42-43 | a drop that fills the board without a line ends the game with the winner and the player on turn unchanged; in a well-formed game there is then no winner |
| `Turns.OrdinaryDrop` | ConnectFour/Game.cs:44-46 | any other successful drop hands the turn over and leaves game-over and winner as they were; in a well-formed game the game is then not over and has no winner |
| `Turns.FullBoardIsFrozen` | ConnectFour/Game.cs:37-48 | once the board is full, every drop into a column of the board is a no-op |
| `Turns.DropIgnoresGameOver` | ConnectFour/Game.cs:37-48 | a drop throws the same error and changes the board the same way whether or not the game is over |
| `Turns.StepRefusedOnlyWhenAhead` | ConnectFour/Game.cs:38 | on a valid board with someone on turn, a drop into a column with room throws exactly when the player on turn already has one disc more, and then changes nothing |
| `Games.Game.constructor` | ConnectFour/Game.cs:13-15 | a new game has a fresh empty grid, the given player on turn, is not over and has no winner |
| `Games.Game.WithGrid` | ConnectFour/Game.cs:16-18 | a game on a supplied grid keeps that grid and its cells as supplied, with the given player on turn, not over and without a winner |
| `Games.Game.Create` | ConnectFour/Game.cs:13-15 | starting a game fails with an argument error exactly when the player is `None`; otherwise the game, its grid and the grid's cells are new, and the game is in its initial state |
| `Games.Game.CreateWithGrid` | ConnectFour/Game.cs:16-18 | starting a game on a supplied grid fails with an argument error exactly when the player is `None`; otherwise it keeps the supplied grid's cells |
| `Games.Game.Get` | ConnectFour/Game.cs:7 | reads the cell at (r, c) of the game's board, whenever the grid is valid |
| `Games.Game.Reset` | ConnectFour/Game.cs:29-35 | works in any state of a 6 x 7 grid: `None` is refused with an argument error and nothing changes; otherwise the grid is cleared, the player is on turn, the game is not over, there is no winner, and the game is valid again whatever it held before |
| `Games.Game.Drop` | ConnectFour/Game.cs:37-48 | needs only a valid grid and someone on turn, as even a game whose shared grid was changed elsewhere can be played; the result and the new state are those of `Step` on the old state: errors of the grid are passed on with nothing changed, then no-op, win, draw or turn change; a well-formed game stays well formed |
| `Scenarios.InvalidDropSequence` | ConnectFourTests/GridTests.cs:237-247 | Red, Yellow, Red dropped into column 0 of an empty grid land bottom up; a fourth disc, Red again, is undone with an invalid-operation error |
| `Scenarios.FirstMoveHandsOver` | ConnectFourTests/GameTests.cs:91-105 | the first drop of a game started by Yellow lands at the bottom and hands the turn to Red, with the game not over and no winner |
| `Scenarios.SeparateGames` | ConnectFour/Game.cs:5 | two games started one after the other own separate grids: after Yellow's first drop in one, that game is exactly the first step from its start and the other is still in its initial state with an empty board |
| `Scenarios.TestBoardsHaveFourOfRed` | ConnectFourTests/GridTests.cs:277-318 | the test boards with a horizontal, a vertical and both diagonal lines of Red each have four in a row of Red |
| `Scenarios.EmptyBoardHasNoFour` | ConnectFourTests/GridTests.cs:328-331 | the empty board has no four in a row of Red or Yellow |

## Left out

- Text rendering (`ToString` of grid and game) is not modelled: it only builds a diagnostic string.
- The console loop, its help text and the web page with its registry of games are callers of the core, not part of it.
- The interfaces `IGrid` and `IGame` hold only signatures; the model uses the grid class directly, so a game over a grid of another class (such as a test double) is not modelled.
- Exceptions are modelled as `Result` values; the exception message text is reduced to the `Reason` it names.
- `Grids.Grid.Drop`: requires a player other than `None`; the source accepts `None` and would write it into an empty cell, which no caller does.
- `Grids.Grid.FromMatrix`: the grid keeps a reference to the caller's array as the source does, but later writes by the caller through that reference are not modelled; the model treats the array as owned by the grid.
- `Grids.Grid.Get`: requires an index on the board; the source's indexer throws an index-out-of-range exception otherwise, which is not modelled.
- `Games.Game.Get`: requires an index on the board, as `Grids.Grid.Get` does; the exception for other indices is not modelled.
- `Grids.Grid.Reset`: requires the array to have the board's dimensions, which every grid has; the source's clear works on any array.
- The constructors `Grids.Grid.Adopt`, `Games.Game.constructor` and `Games.Game.WithGrid` require a valid matrix or a player other than `None`; the refusals the source throws for those inputs are modelled by `FromMatrix`, `Create` and `CreateWithGrid`.
- Integer widths are not modelled: every count is at most 42 and every index at most 7, so no C# `int` overflows.
