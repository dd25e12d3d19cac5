/**
 * The game object: one grid, the player on turn, the game-over flag and
 * the winner, changed in place by drops and restarts.
 */
module Games {
  import opened Wrappers
  import opened Board
  import opened Grids
  import opened Turns

  class Game {
    const grid: Grid
    var playerOnTurn: Player
    var gameOver: bool
    var winner: Player

    /**
     * The class invariant: the grid is valid, someone is on turn, and the
     * game-over flag and the winner agree with the grid.
     */
    ghost predicate Valid()
      reads this, grid, grid.cells
    {
      grid.Valid() && WellFormed(State())
    }

    /** The state of this game, as a value. */
    ghost function State(): GameState
      reads this, grid, grid.cells
    {
      GameState(grid.Board(), playerOnTurn, gameOver, winner)
    }

    /** A game on a new, empty grid with `p` on turn. */
    constructor (p: Player)
      requires p != None
      ensures Valid() && fresh(grid) && fresh(grid.cells)
      ensures State() == Initial(p)
    {
      var g := new Grid();
      g.Reset();
      grid := g;
      playerOnTurn, gameOver, winner := p, false, None;
      EmptyBoardIsValid();
    }

    /**
     * A game on a grid the caller supplies, with `p` on turn. The grid keeps
     * its cells: the reset that comes with starting a game clears a default
     * grid that the supplied one then replaces.
     */
    constructor WithGrid(g: Grid, p: Player)
      requires g.Valid() && p != None
      ensures Valid() && grid == g
      ensures State() == GameState(g.Board(), p, false, None)
    {
      var discarded := new Grid();
      discarded.Reset();
      grid := g;
      playerOnTurn, gameOver, winner := p, false, None;
    }

    /** Starting a game with `p` on turn: None is refused with an argument error. */
    static method Create(p: Player) returns (r: Result<Game, Error>)
      ensures r.Failure? <==> p == None
      ensures r.Failure? ==> r.error == ArgumentException(NoPlayer)
      ensures r.Success? ==> fresh(r.value) && fresh(r.value.grid) && fresh(r.value.grid.cells) && r.value.Valid()
      ensures r.Success? ==> r.value.State() == Initial(p)
    {
      if p == None {
        return Failure(ArgumentException(NoPlayer));
      }
      var game := new Game(p);
      return Success(game);
    }

    /** Starting a game on a supplied grid with `p` on turn: None is refused with an argument error. */
    static method CreateWithGrid(g: Grid, p: Player) returns (r: Result<Game, Error>)
      requires g.Valid()
      ensures r.Failure? <==> p == None
      ensures r.Failure? ==> r.error == ArgumentException(NoPlayer)
      ensures r.Success? ==> fresh(r.value) && r.value.grid == g && r.value.Valid()
      ensures r.Success? ==> r.value.State() == GameState(g.Board(), p, false, None)
    {
      if p == None {
        return Failure(ArgumentException(NoPlayer));
      }
      var game := new Game.WithGrid(g, p);
      return Success(game);
    }

    /** The cell at row `r` and column `c` of the game's grid. */
    function Get(r: int, c: int): (p: Player)
      reads this, grid, grid.cells
      requires grid.Valid() && InGrid(r, c)
      ensures p == State().cells[r][c]
    {
      grid.Get(r, c)
    }

    /**
     * Restarts the game with `p` on turn: None is refused with an argument
     * error before anything changes; otherwise the grid is cleared, `p` is on
     * turn, the game is not over and there is no winner. Only the grid's
     * size is needed: a restart with a player makes any game valid again.
     */
    method Reset(p: Player) returns (r: Result<(), Error>)
      requires grid.cells.Length0 == ROWS && grid.cells.Length1 == COLS
      modifies this, grid.cells
      ensures p != None ==> Valid()
      ensures old(Valid()) ==> Valid()
      ensures Restart(old(State()), p) == StepOutcome(r, State())
    {
      if p == None {
        return Failure(ArgumentException(NoPlayer));
      }
      grid.Reset();
      playerOnTurn := p;
      gameOver := false;
      winner := None;
      RestartIsWellFormed(old(State()), p);
      return Success(());
    }

    /**
     * The player on turn drops a disc into column `col`; an error of the grid
     * is passed on. Whether the game is already over is not consulted. Only
     * a valid grid and someone on turn are needed, so a game whose shared
     * grid was changed by someone else can still be played.
     */
    method Drop(col: int) returns (r: Result<(), Error>)
      requires grid.Valid() && playerOnTurn != None
      modifies this, grid.cells
      ensures grid.Valid() && playerOnTurn != None
      ensures old(Valid()) ==> Valid()
      ensures Step(old(State()), col) == StepOutcome(r, State())
    {
      if Valid() {
        StepKeepsWellFormed(State(), col);
      }
      var placed := grid.Drop(playerOnTurn, col);
      match placed
      case Failure(e) =>
        return Failure(e);
      case Success(ok) =>
        if ok {
          var four := grid.HasFourInARow(playerOnTurn);
          if four {
            winner := playerOnTurn;
            gameOver := true;
          } else if grid.Full() {
            gameOver := true;
          } else {
            playerOnTurn := Flip(playerOnTurn);
          }
        }
        return Success(());
    }
  }
}
