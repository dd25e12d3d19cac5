/** Concrete games from the test suite, stated as lemmas about the rules. */
module Scenarios {
  import opened Wrappers
  import opened Board
  import opened Turns
  import opened Games

  /** Red, Yellow, Red dropped into column 0 of an empty board all land; a further Red is rolled back. */
  lemma InvalidDropSequence()
    ensures var d1 := DropDisc(EmptyBoard(), Red, 0);
            var d2 := DropDisc(d1.after, Yellow, 0);
            var d3 := DropDisc(d2.after, Red, 0);
            var d4 := DropDisc(d3.after, Red, 0);
            && d1.result == Success(true) && d2.result == Success(true) && d3.result == Success(true)
            && d3.after[2][0] == None && d3.after[3][0] == Red && d3.after[4][0] == Yellow && d3.after[5][0] == Red
            && d4 == DropOutcome(Failure(InvalidOperationException(UnbalancedDiscs)), d3.after)
  {
    var b0 := EmptyBoard();
    EmptyBoardIsValid();
    assert LowestEmpty(b0, 0) == Some(5);
    DropByPlayerNotAhead(b0, Red, 0, 5);
    var b1 := Place(b0, 5, 0, Red);
    assert LowestEmpty(b1, 0) == Some(4);
    DropByPlayerNotAhead(b1, Yellow, 0, 4);
    var b2 := Place(b1, 4, 0, Yellow);
    assert LowestEmpty(b2, 0) == Some(3);
    DropByPlayerNotAhead(b2, Red, 0, 3);
    var b3 := Place(b2, 3, 0, Red);
    assert LowestEmpty(b3, 0) == Some(2);
    DropRollsBackExactlyWhenAhead(b3, Red, 0);
  }

  /** The first move of a game started by Yellow lands at the bottom of the column and hands the turn to Red. */
  lemma FirstMoveHandsOver()
    ensures var t := Step(Initial(Yellow), 0);
            && t.result == Success(())
            && t.after == GameState(Place(EmptyBoard(), 5, 0, Yellow), Red, false, None)
  {
    var b0 := EmptyBoard();
    EmptyBoardIsValid();
    assert LowestEmpty(b0, 0) == Some(5);
    DropByPlayerNotAhead(b0, Yellow, 0, 5);
    var b1 := Place(b0, 5, 0, Yellow);
    LoneDiscMakesNoLine(b1, Yellow, 5, 0);
    assert b1[0][0] == None;
  }

  /**
   * Two games started side by side own separate grids: Yellow's first drop
   * in one is a drop in that game alone, and the other game stays as it
   * was started.
   */
  method SeparateGames() returns (g1: Game, g2: Game)
    ensures g1.Valid() && g2.Valid()
    ensures g1.State() == Step(Initial(Yellow), 0).after
    ensures g2.State() == Initial(Red)
  {
    var r1 := Game.Create(Yellow);
    var r2 := Game.Create(Red);
    g1, g2 := r1.value, r2.value;
    var d := g1.Drop(0);
  }

  /** Red fills the left four cells of the bottom row. */
  function BottomRowBoard(): Cells {
    var N, R, Y := None, Red, Yellow;
    [ [N, N, N, N, N, N, N],
      [N, N, N, N, N, N, N],
      [N, N, N, N, N, N, N],
      [N, N, N, N, N, N, N],
      [N, N, N, N, N, Y, Y],
      [R, R, R, R, N, Y, Y] ]
  }

  /** Red stacks four discs in column 0. */
  function ColumnBoard(): Cells {
    var N, R, Y := None, Red, Yellow;
    [ [N, N, N, N, N, N, N],
      [N, N, N, N, N, N, N],
      [R, N, N, N, N, N, N],
      [R, N, N, N, N, N, N],
      [R, N, N, N, N, Y, Y],
      [R, N, N, N, N, Y, Y] ]
  }

  /** Red runs down and to the right from (2, 0) to (5, 3). */
  function FallingDiagonalBoard(): Cells {
    var N, R, Y := None, Red, Yellow;
    [ [N, N, N, N, N, N, N],
      [N, N, N, N, N, N, N],
      [R, N, N, N, N, N, N],
      [Y, R, N, N, N, N, N],
      [Y, Y, R, N, N, N, N],
      [Y, Y, Y, R, N, R, R] ]
  }

  /** Red runs down and to the left from (2, 6) to (5, 3). */
  function RisingDiagonalBoard(): Cells {
    var N, R, Y := None, Red, Yellow;
    [ [N, N, N, N, N, N, N],
      [N, N, N, N, N, N, N],
      [N, N, N, N, N, N, R],
      [N, N, N, N, N, R, Y],
      [N, N, N, N, R, Y, Y],
      [R, R, N, R, Y, Y, Y] ]
  }

  /** Each of the four winning boards of the test suite has a line of Red, in its own direction. */
  lemma TestBoardsHaveFourOfRed()
    ensures Shaped(BottomRowBoard()) && HasFour(BottomRowBoard(), Red)
    ensures Shaped(ColumnBoard()) && HasFour(ColumnBoard(), Red)
    ensures Shaped(FallingDiagonalBoard()) && HasFour(FallingDiagonalBoard(), Red)
    ensures Shaped(RisingDiagonalBoard()) && HasFour(RisingDiagonalBoard(), Red)
  {
    assert InGrid(5, 0) && Line(BottomRowBoard(), Red, 5, 0, OFFSETS[1].0, OFFSETS[1].1);
    assert InGrid(2, 0) && Line(ColumnBoard(), Red, 2, 0, OFFSETS[0].0, OFFSETS[0].1);
    assert InGrid(2, 0) && Line(FallingDiagonalBoard(), Red, 2, 0, OFFSETS[2].0, OFFSETS[2].1);
    assert InGrid(2, 6) && Line(RisingDiagonalBoard(), Red, 2, 6, OFFSETS[3].0, OFFSETS[3].1);
  }

  /** The empty board has no line of either player. */
  lemma EmptyBoardHasNoFour(p: Player)
    requires p != None
    ensures !HasFour(EmptyBoard(), p)
  {
    forall r, c, i | InGrid(r, c) && 0 <= i < |OFFSETS| ensures !Line(EmptyBoard(), p, r, c, OFFSETS[i].0, OFFSETS[i].1) {
      assert !RunCell(EmptyBoard(), p, r, c, OFFSETS[i].0, OFFSETS[i].1, 0);
    }
  }
}
