/**
 * The turn and outcome rules of a game, stated on values: who moves next,
 * whether the game is over and who won, and how one drop changes them.
 */
module Turns {
  import opened Wrappers
  import opened Board

  /** What a game holds: its board, the player on turn, whether it is over, and the winner (None if there is none). */
  datatype GameState = GameState(cells: Cells, onTurn: Player, over: bool, winner: Player)

  /**
   * The game-over flag and the winner agree with the board: a winner is the
   * player on turn, has a line on the board and has ended the game; a game
   * over without a winner has a full board.
   */
  ghost predicate Outcome(s: GameState)
    requires Shaped(s.cells)
  {
    && (s.winner != None ==> s.over && s.winner == s.onTurn && HasFour(s.cells, s.winner))
    && (s.over && s.winner == None ==> IsFull(s.cells))
  }

  /**
   * A game is well formed when its board passes the structural checks,
   * someone is on turn, and its outcome agrees with the board.
   */
  ghost predicate WellFormed(s: GameState) {
    IsValid(s.cells) && s.onTurn != None && Outcome(s)
  }

  /** A game just started or restarted with `p` on turn. */
  function Initial(p: Player): GameState {
    GameState(EmptyBoard(), p, false, None)
  }

  /** What a game drop throws, if anything, and the game it leaves behind. */
  datatype StepOutcome = StepOutcome(result: Result<(), Error>, after: GameState)

  /**
   * One drop into column `col` by the player on turn. An error of the board
   * leaves the game as it was and is passed on; a full column changes
   * nothing; a placed disc that completes a line makes the mover the winner
   * and ends the game; one that fills the board ends the game; any other
   * hands the turn over. Whether the game is already over is not consulted.
   */
  ghost function Step(s: GameState, col: int): (r: StepOutcome)
    requires Shaped(s.cells)
    ensures Shaped(r.after.cells)
    ensures IsValid(s.cells) ==> IsValid(r.after.cells)
    ensures r.result.Failure? ==> r.after == s
    ensures s.over ==> r.after.over
    ensures r.after.winner != s.winner ==> r.after.winner == s.onTurn && r.after.over && HasFour(r.after.cells, s.onTurn)
  {
    var d := DropDisc(s.cells, s.onTurn, col);
    match d.result
    case Failure(e) => StepOutcome(Failure(e), s)
    case Success(placed) =>
      if !placed then StepOutcome(Success(()), s)
      else if HasFour(d.after, s.onTurn) then
        StepOutcome(Success(()), s.(cells := d.after, winner := s.onTurn, over := true))
      else if IsFull(d.after) then
        StepOutcome(Success(()), s.(cells := d.after, over := true))
      else
        StepOutcome(Success(()), s.(cells := d.after, onTurn := Flip(s.onTurn)))
  }

  /** A restart names the player who moves first; None is refused with an argument error and nothing changes. */
  function Restart(s: GameState, p: Player): (r: StepOutcome)
    ensures r.result.Failure? <==> p == None
    ensures r.result.Failure? ==> r.after == s
    ensures r.result.Success? ==> r.after.onTurn == p && !r.after.over && r.after.winner == None
    ensures r.result.Success? ==> Count(r.after.cells, Red) == 0 && Count(r.after.cells, Yellow) == 0
  {
    if p == None then StepOutcome(Failure(ArgumentException(NoPlayer)), s)
    else
      EmptyBoardIsValid();
      StepOutcome(Success(()), Initial(p))
  }

  // ---------------------------------------------------------------------
  // Lemmas
  // ---------------------------------------------------------------------

  /** A restart with a player yields a well-formed game with an empty board, not over and without a winner. */
  lemma RestartIsWellFormed(s: GameState, p: Player)
    ensures Restart(s, p).result.Failure? <==> p == None
    ensures p != None ==> WellFormed(Restart(s, p).after) && Restart(s, p).after.onTurn == p
    ensures p != None ==> !Restart(s, p).after.over && Restart(s, p).after.winner == None
  {
    EmptyBoardIsValid();
  }

  /** In a well-formed game that has a winner, a disc the winner adds leaves the winner's line in place. */
  lemma WinnerKeepsLine(s: GameState, col: int)
    requires WellFormed(s) && s.winner != None
    requires DropDisc(s.cells, s.onTurn, col).result == Success(true)
    ensures HasFour(DropDisc(s.cells, s.onTurn, col).after, s.onTurn)
  {
    DropChangesOnlyLandingCell(s.cells, s.onTurn, col);
    var row := LowestEmpty(s.cells, col).value;
    HasFourSurvivesPlacement(s.cells, s.winner, row, col, s.onTurn);
  }

  /**
   * A drop keeps the game well formed: the board stays valid, the player on
   * turn is never None, and the game-over flag and the winner keep agreeing
   * with the board.
   */
  lemma StepKeepsWellFormed(s: GameState, col: int)
    requires WellFormed(s)
    ensures WellFormed(Step(s, col).after)
    ensures Step(s, col).after.onTurn in {s.onTurn, Flip(s.onTurn)}
  {
    var d := DropDisc(s.cells, s.onTurn, col);
    if d.result == Success(true) && s.winner != None {
      WinnerKeepsLine(s, col);
    }
    if s.over && s.winner == None && 0 <= col < COLS {
      FullBoardIsFrozen(s, col);
    }
  }

  /**
   * Once a well-formed game is over it stays over with the same winner and
   * the same player on turn: after a win only the winner moves and any disc
   * it adds wins again, and after a draw every drop is a no-op.
   */
  lemma GameOverIsFinal(s: GameState, col: int)
    requires WellFormed(s) && s.over
    ensures var t := Step(s, col).after;
            t.over && t.winner == s.winner && t.onTurn == s.onTurn
  {
    var d := DropDisc(s.cells, s.onTurn, col);
    if s.winner != None {
      if d.result == Success(true) {
        WinnerKeepsLine(s, col);
      }
    } else if 0 <= col < COLS {
      FullBoardIsFrozen(s, col);
    }
  }

  /** Dropping into a full column changes nothing and throws nothing. */
  lemma FullColumnIsNoOp(s: GameState, col: int)
    requires Shaped(s.cells) && 0 <= col < COLS && LowestEmpty(s.cells, col) == Nothing
    ensures Step(s, col) == StepOutcome(Success(()), s)
  {
  }

  /** A column outside the board is refused with an argument error and nothing changes. */
  lemma BadColumnIsRefused(s: GameState, col: int)
    requires Shaped(s.cells) && (col < 0 || col >= COLS)
    ensures Step(s, col) == StepOutcome(Failure(ArgumentException(ColumnOutOfRange)), s)
  {
  }

  /**
   * A drop that completes a line records the mover as the winner and ends
   * the game, without handing the turn over.
   */
  lemma WinningDrop(s: GameState, col: int)
    requires Shaped(s.cells)
    requires DropDisc(s.cells, s.onTurn, col).result == Success(true)
    requires HasFour(DropDisc(s.cells, s.onTurn, col).after, s.onTurn)
    ensures var t := Step(s, col).after;
            t.winner == s.onTurn && t.over && t.onTurn == s.onTurn && t.cells == DropDisc(s.cells, s.onTurn, col).after
  {
  }

  /**
   * A drop that fills the board without completing a line ends the game as a
   * draw: the winner stays what it was and the turn is not handed over. In a
   * well-formed game there is then no winner.
   */
  lemma DrawingDrop(s: GameState, col: int)
    requires Shaped(s.cells)
    requires DropDisc(s.cells, s.onTurn, col).result == Success(true)
    requires !HasFour(DropDisc(s.cells, s.onTurn, col).after, s.onTurn)
    requires IsFull(DropDisc(s.cells, s.onTurn, col).after)
    ensures var t := Step(s, col).after;
            t.over && t.winner == s.winner && t.onTurn == s.onTurn
    ensures WellFormed(s) ==> Step(s, col).after.winner == None
  {
    if WellFormed(s) && s.winner != None {
      WinnerKeepsLine(s, col);
    }
  }

  /**
   * Any other successful drop hands the turn over and leaves the game-over
   * flag and the winner as they were. In a well-formed game the game is then
   * not over and there is no winner.
   */
  lemma OrdinaryDrop(s: GameState, col: int)
    requires Shaped(s.cells)
    requires DropDisc(s.cells, s.onTurn, col).result == Success(true)
    requires !HasFour(DropDisc(s.cells, s.onTurn, col).after, s.onTurn)
    requires !IsFull(DropDisc(s.cells, s.onTurn, col).after)
    ensures var t := Step(s, col).after;
            t.onTurn == Flip(s.onTurn) && t.over == s.over && t.winner == s.winner
    ensures WellFormed(s) ==> !Step(s, col).after.over && Step(s, col).after.winner == None
  {
    if WellFormed(s) {
      if s.winner != None {
        WinnerKeepsLine(s, col);
      } else if s.over {
        FullIffEveryColumnRefuses(s.cells, s.onTurn);
      }
    }
  }

  /** Once a game has ended in a draw, every further drop into the board is a no-op. */
  lemma FullBoardIsFrozen(s: GameState, col: int)
    requires Shaped(s.cells) && IsFull(s.cells) && 0 <= col < COLS
    ensures Step(s, col) == StepOutcome(Success(()), s)
  {
    FullIffEveryColumnRefuses(s.cells, s.onTurn);
  }

  /**
   * A drop does not consult whether the game is over: the board changes and
   * the same error is thrown as in a game still in progress.
   */
  lemma DropIgnoresGameOver(s: GameState, col: int)
    requires Shaped(s.cells)
    ensures Step(s, col).result == Step(s.(over := false), col).result
    ensures Step(s, col).after.cells == Step(s.(over := false), col).after.cells
  {
  }

  /**
   * On a valid board with someone on turn, a drop into a column with room is refused with an
   * invalid-operation error exactly when the player on turn already has one
   * disc more than the opponent.
   */
  lemma StepRefusedOnlyWhenAhead(s: GameState, col: int)
    requires IsValid(s.cells) && s.onTurn != None && 0 <= col < COLS && LowestEmpty(s.cells, col).Some?
    ensures Step(s, col).result.Failure? <==> Count(s.cells, s.onTurn) == Count(s.cells, Flip(s.onTurn)) + 1
    ensures Step(s, col).result.Failure? ==>
              Step(s, col) == StepOutcome(Failure(InvalidOperationException(UnbalancedDiscs)), s)
  {
    DropRollsBackExactlyWhenAhead(s.cells, s.onTurn, col);
  }
}
