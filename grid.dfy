/**
 * The board object: a 6 x 7 array of cells that drops, clears and searches
 * in place, and refuses any configuration that breaks the structural rules
 * of module Board.
 */
module Grids {
  import opened Wrappers
  import opened Board

  /** The cells of an array, as a value. */
  ghost function Snapshot(m: array2<Player>): (b: Cells)
    reads m
    ensures |b| == m.Length0
    ensures forall r :: 0 <= r < m.Length0 ==> |b[r]| == m.Length1
    ensures forall r, c :: 0 <= r < m.Length0 && 0 <= c < m.Length1 ==> b[r][c] == m[r, c]
  {
    seq(m.Length0, r requires 0 <= r < m.Length0 reads m =>
      seq(m.Length1, c requires 0 <= c < m.Length1 reads m => m[r, c]))
  }

  /** Two matrices that agree cell by cell are the same value. */
  lemma SameCells(b: Cells, b': Cells)
    requires |b| == |b'| && forall r :: 0 <= r < |b| ==> |b[r]| == |b'[r]|
    requires forall r, c :: 0 <= r < |b| && 0 <= c < |b[r]| ==> b[r][c] == b'[r][c]
    ensures b == b'
  {
    forall r | 0 <= r < |b| ensures b[r] == b'[r] {
    }
  }

  /** Counts the red and the yellow discs of a matrix of the board's size, cell by cell. */
  method CountDiscs(m: array2<Player>) returns (reds: int, yellows: int)
    requires m.Length0 == ROWS && m.Length1 == COLS
    ensures reds == Count(Snapshot(m), Red) && yellows == Count(Snapshot(m), Yellow)
  {
    ghost var b := Snapshot(m);
    reds, yellows := 0, 0;
    for r := 0 to ROWS
      invariant reds == Count(b[..r], Red) && yellows == Count(b[..r], Yellow)
    {
      for c := 0 to COLS
        invariant reds == Count(b[..r], Red) + CountRow(b[r][..c], Red)
        invariant yellows == Count(b[..r], Yellow) + CountRow(b[r][..c], Yellow)
      {
        assert b[r][..c + 1][..c] == b[r][..c];
        if m[r, c] == Yellow {
          yellows := yellows + 1;
        }
        if m[r, c] == Red {
          reds := reds + 1;
        }
      }
      assert b[r][..COLS] == b[r];
      assert b[..r + 1][..r] == b[..r];
    }
    assert b[..ROWS] == b;
  }

  /**
   * Whether some disc stands above an empty cell: scans each column from the
   * bottom up, remembering whether an empty cell has been passed.
   */
  method HasFloatingDisc(m: array2<Player>) returns (floating: bool)
    requires m.Length0 == ROWS && m.Length1 == COLS
    ensures floating <==> !Settled(Snapshot(m))
  {
    ghost var b := Snapshot(m);
    for c := 0 to COLS
      invariant forall r1, r2, c' :: 0 <= r1 < r2 < ROWS && 0 <= c' < c && b[r2][c'] == None ==> b[r1][c'] == None
    {
      var foundNone := false;
      var r := ROWS - 1;
      while r >= 0
        invariant -1 <= r < ROWS
        invariant foundNone <==> exists k :: r < k < ROWS && b[k][c] == None
        invariant forall r1, r2 :: r < r1 < r2 < ROWS && b[r2][c] == None ==> b[r1][c] == None
      {
        if m[r, c] == None {
          foundNone := true;
        }
        if foundNone && m[r, c] != None {
          ghost var k :| r < k < ROWS && b[k][c] == None;
          assert b[r][c] != None;
          return true;
        }
        r := r - 1;
      }
    }
    return false;
  }

  /**
   * The structural checks of a matrix, made in the order the game makes
   * them: the row count, the column count, the balance of red and yellow
   * discs, and the gravity rule. Answers the first check that fails.
   */
  method Validate(m: array2<Player>) returns (violation: Option<Reason>)
    ensures violation == FirstViolation(Snapshot(m))
  {
    if m.Length0 != ROWS {
      return Some(WrongRowCount);
    }
    if m.Length1 != COLS {
      assert |Snapshot(m)[0]| != COLS;
      return Some(WrongColumnCount);
    }
    var reds, yellows := CountDiscs(m);
    if reds - yellows > 1 || yellows - reds > 1 {
      return Some(UnbalancedDiscs);
    }
    var floating := HasFloatingDisc(m);
    if floating {
      return Some(FloatingDiscs);
    }
    return Nothing;
  }

  class Grid {
    const cells: array2<Player>

    /** The class invariant: the array has the board's dimensions and passes the structural checks. */
    ghost predicate Valid()
      reads this, cells
    {
      cells.Length0 == ROWS && cells.Length1 == COLS && IsValid(Board())
    }

    /** The cells of this grid, as a value. */
    ghost function Board(): Cells
      reads this, cells
    {
      Snapshot(cells)
    }

    /** A new grid has every cell empty. */
    constructor ()
      ensures Valid() && fresh(cells)
      ensures Board() == EmptyBoard()
    {
      cells := new Player[ROWS, COLS];
      new;
      Reset();
    }

    /** Takes ownership of a matrix that passes the structural checks. */
    constructor Adopt(m: array2<Player>)
      requires m.Length0 == ROWS && m.Length1 == COLS && IsValid(Snapshot(m))
      ensures Valid() && cells == m
    {
      cells := m;
    }

    /**
     * A grid built from a caller's matrix: refused with an argument error
     * naming the first structural check the matrix fails, otherwise a grid
     * that keeps every cell of the matrix.
     */
    static method FromMatrix(m: array2<Player>) returns (r: Result<Grid, Error>)
      ensures r.Failure? <==> !IsValid(Snapshot(m))
      ensures r.Failure? ==> r.error == ArgumentException(FirstViolation(Snapshot(m)).value)
      ensures r.Success? ==> fresh(r.value) && r.value.Valid() && r.value.cells == m
      ensures r.Success? ==> r.value.Board() == Snapshot(m)
    {
      var violation := Validate(m);
      if violation.Some? {
        return Failure(ArgumentException(violation.value));
      }
      var g := new Grid.Adopt(m);
      return Success(g);
    }

    /** The cell at row `r` and column `c`. */
    function Get(r: int, c: int): (p: Player)
      reads this, cells
      requires Valid() && InGrid(r, c)
      ensures p == Board()[r][c]
    {
      cells[r, c]
    }

    /** No cell is empty. */
    function Full(): (full: bool)
      reads this, cells
      requires Valid()
      ensures full <==> IsFull(Board())
    {
      forall r, c | 0 <= r < ROWS && 0 <= c < COLS :: cells[r, c] != None
    }

    /** Clears every cell, whatever the grid held before. */
    method Reset()
      requires cells.Length0 == ROWS && cells.Length1 == COLS
      modifies cells
      ensures Valid()
      ensures Board() == EmptyBoard()
    {
      forall r, c | 0 <= r < ROWS && 0 <= c < COLS {
        cells[r, c] := None;
      }
      SameCells(Board(), EmptyBoard());
      EmptyBoardIsValid();
    }

    /**
     * Drops a disc of `player` into column `col`, scanning the column from
     * the bottom up for the first empty cell; the placement is undone if it
     * leaves the grid structurally invalid.
     */
    method Drop(player: Player, col: int) returns (r: Result<bool, Error>)
      requires Valid() && player != None
      modifies cells
      ensures Valid()
      ensures DropDisc(old(Board()), player, col) == DropOutcome(r, Board())
    {
      ghost var b := Board();
      if col < 0 || col >= COLS {
        return Failure(ArgumentException(ColumnOutOfRange));
      }
      var row := ROWS - 1;
      while row >= 0
        invariant -1 <= row < ROWS
        invariant LowestEmpty(b, col) == LowestEmptyFrom(b, col, row)
        invariant Board() == b
      {
        if cells[row, col] == None {
          cells[row, col] := player;
          SameCells(Board(), Place(b, row, col, player));
          var violation := Validate(cells);
          if violation.Some? {
            cells[row, col] := None;
            SameCells(Board(), b);
            return Failure(InvalidOperationException(violation.value));
          }
          return Success(true);
        }
        row := row - 1;
      }
      return Success(false);
    }

    /**
     * The number of consecutive cells holding `player` met when walking from
     * (row, col) in direction (dr, dc) until the walk leaves the board or
     * meets another value; it reaches WIN_COUNT exactly when a line starts there.
     */
    method Walk(player: Player, row: int, col: int, dr: int, dc: int) returns (same: int)
      requires Valid() && InGrid(row, col) && (dr, dc) in OFFSETS
      ensures 0 <= same
      ensures same >= WIN_COUNT <==> Line(Board(), player, row, col, dr, dc)
    {
      ghost var b := Board();
      var r, c := row, col;
      same := 0;
      while 0 <= r < ROWS && 0 <= c < COLS && cells[r, c] == player
        invariant 0 <= same <= ROWS + COLS
        invariant r == row + same * dr && c == col + same * dc
        invariant forall k :: 0 <= k < same ==> RunCell(b, player, row, col, dr, dc, k)
        decreases ROWS + COLS - same
      {
        assert RunCell(b, player, row, col, dr, dc, same);
        same := same + 1;
        r := r + dr;
        c := c + dc;
      }
      if same < WIN_COUNT {
        assert !RunCell(b, player, row, col, dr, dc, same);
      }
    }

    /**
     * Whether some cell starts a line of WIN_COUNT discs of `player`: from
     * every cell holding `player`, walks in each of the four directions and
     * answers true as soon as a walk counts WIN_COUNT cells.
     */
    method HasFourInARow(player: Player) returns (found: bool)
      requires Valid()
      ensures found == HasFour(Board(), player)
    {
      ghost var b := Board();
      for row := 0 to ROWS
        invariant forall r, c, i :: InGrid(r, c) && r < row && 0 <= i < |OFFSETS| ==>
                    !Line(b, player, r, c, OFFSETS[i].0, OFFSETS[i].1)
      {
        for col := 0 to COLS
          invariant forall r, c, i :: InGrid(r, c) && (r < row || (r == row && c < col)) && 0 <= i < |OFFSETS| ==>
                      !Line(b, player, r, c, OFFSETS[i].0, OFFSETS[i].1)
        {
          if cells[row, col] == player {
            for i := 0 to |OFFSETS|
              invariant forall i' :: 0 <= i' < i ==> !Line(b, player, row, col, OFFSETS[i'].0, OFFSETS[i'].1)
            {
              var same := Walk(player, row, col, OFFSETS[i].0, OFFSETS[i].1);
              if same >= WIN_COUNT {
                assert InGrid(row, col) && Line(b, player, row, col, OFFSETS[i].0, OFFSETS[i].1);
                return true;
              }
            }
          } else {
            forall i | 0 <= i < |OFFSETS| ensures !Line(b, player, row, col, OFFSETS[i].0, OFFSETS[i].1) {
              assert !RunCell(b, player, row, col, OFFSETS[i].0, OFFSETS[i].1, 0);
            }
          }
        }
      }
      return false;
    }
  }
}
