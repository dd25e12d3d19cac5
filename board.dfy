/**
 * The rules of a Connect Four board, stated on values.
 *
 * A board is a matrix of cells read row by row; row 0 is the top row and
 * row ROWS - 1 the bottom one, so a disc dropped into a column comes to rest
 * at the largest row index whose cell is empty.
 */
module Board {
  import opened Wrappers

  /** The content of a cell. `None` comes first: it is the value a cleared array holds. */
  datatype Player = None | Red | Yellow

  const ROWS: int := 6
  const COLS: int := 7
  const WIN_COUNT: int := 4

  /** A matrix of cells, row by row. */
  type Cells = seq<seq<Player>>

  /** Why a matrix or a move is refused: one case per message the game reports. */
  datatype Reason =
    | WrongRowCount
    | WrongColumnCount
    | UnbalancedDiscs
    | FloatingDiscs
    | ColumnOutOfRange
    | NoPlayer

  /** The two kinds of exception the game throws. */
  datatype Error =
    | ArgumentException(reason: Reason)
    | InvalidOperationException(reason: Reason)

  // ---------------------------------------------------------------------
  // Structural validity
  // ---------------------------------------------------------------------

  /** Exactly ROWS rows of exactly COLS cells. */
  predicate Shaped(b: Cells) {
    |b| == ROWS && forall r :: 0 <= r < |b| ==> |b[r]| == COLS
  }

  predicate InGrid(r: int, c: int) {
    0 <= r < ROWS && 0 <= c < COLS
  }

  /** The number of cells of `row` that hold `p`. */
  function CountRow(row: seq<Player>, p: Player): nat {
    if row == [] then 0
    else CountRow(row[..|row| - 1], p) + (if row[|row| - 1] == p then 1 else 0)
  }

  /** The number of cells of `b` that hold `p`. */
  function Count(b: Cells, p: Player): nat {
    if b == [] then 0
    else Count(b[..|b| - 1], p) + CountRow(b[|b| - 1], p)
  }

  /** The players alternate, so their disc counts differ by at most one. */
  predicate Balanced(b: Cells) {
    -1 <= Count(b, Red) - Count(b, Yellow) <= 1
  }

  /** Gravity: in every column, no disc stands above an empty cell. */
  predicate Settled(b: Cells)
    requires Shaped(b)
  {
    forall r1, r2, c :: 0 <= r1 < r2 < ROWS && 0 <= c < COLS && b[r2][c] == None ==> b[r1][c] == None
  }

  predicate IsValid(b: Cells) {
    Shaped(b) && Balanced(b) && Settled(b)
  }

  /**
   * The first structural check a matrix fails, in the order the game makes
   * them: row count, column count, disc balance, gravity.
   */
  function FirstViolation(b: Cells): (v: Option<Reason>)
    ensures v == Nothing <==> IsValid(b)
    ensures v != Nothing ==> v.value in {WrongRowCount, WrongColumnCount, UnbalancedDiscs, FloatingDiscs}
    ensures v == Some(WrongRowCount) <==> |b| != ROWS
  {
    if |b| != ROWS then Some(WrongRowCount)
    else if !Shaped(b) then Some(WrongColumnCount)
    else if !Balanced(b) then Some(UnbalancedDiscs)
    else if !Settled(b) then Some(FloatingDiscs)
    else Nothing
  }

  /** The board with no disc at all. */
  function EmptyBoard(): (b: Cells)
    ensures Shaped(b)
  {
    seq(ROWS, _ => seq(COLS, _ => None))
  }

  /** Every cell holds a disc. */
  ghost predicate IsFull(b: Cells)
    requires Shaped(b)
  {
    forall r, c :: InGrid(r, c) ==> b[r][c] != None
  }

  // ---------------------------------------------------------------------
  // Dropping a disc
  // ---------------------------------------------------------------------

  /** `b` with cell (r, c) set to `p`. */
  function Place(b: Cells, r: int, c: int, p: Player): (b': Cells)
    requires 0 <= r < |b| && 0 <= c < |b[r]|
  {
    b[r := b[r][c := p]]
  }

  /**
   * Scanning column `col` from row `row` upwards, the first empty cell:
   * the largest row index at most `row` whose cell is empty.
   */
  function LowestEmptyFrom(b: Cells, col: int, row: int): (o: Option<int>)
    requires Shaped(b) && 0 <= col < COLS && -1 <= row < ROWS
    ensures o.Some? ==> 0 <= o.value <= row && b[o.value][col] == None
    ensures o.Some? ==> forall k :: o.value < k <= row ==> b[k][col] != None
    ensures o == Nothing ==> forall k :: 0 <= k <= row ==> b[k][col] != None
    decreases row + 1
  {
    if row < 0 then Nothing
    else if b[row][col] == None then Some(row)
    else LowestEmptyFrom(b, col, row - 1)
  }

  /** Where a disc dropped into `col` lands, if the column has room. */
  function LowestEmpty(b: Cells, col: int): Option<int>
    requires Shaped(b) && 0 <= col < COLS
  {
    LowestEmptyFrom(b, col, ROWS - 1)
  }

  /** What a drop returns (or throws) and the board it leaves behind. */
  datatype DropOutcome = DropOutcome(result: Result<bool, Error>, after: Cells)

  /**
   * Dropping a disc of `p` into column `col`: a column outside the board is
   * refused before anything changes; a full column leaves the board as it is
   * and answers false; otherwise the disc lands in the lowest empty cell, and
   * if the board then breaks a structural rule the placement is undone and an
   * invalid-operation error names the rule.
   */
  function DropDisc(b: Cells, p: Player, col: int): (o: DropOutcome)
    requires Shaped(b)
    ensures Shaped(o.after)
    ensures IsValid(b) ==> IsValid(o.after)
  {
    if col < 0 || col >= COLS then DropOutcome(Failure(ArgumentException(ColumnOutOfRange)), b)
    else match LowestEmpty(b, col)
      case Nothing => DropOutcome(Success(false), b)
      case Some(row) =>
        var placed := Place(b, row, col, p);
        match FirstViolation(placed)
        case Some(reason) => DropOutcome(Failure(InvalidOperationException(reason)), b)
        case Nothing => DropOutcome(Success(true), placed)
  }

  // ---------------------------------------------------------------------
  // Four in a row
  // ---------------------------------------------------------------------

  /** The four line directions, as (row step, column step): vertical, horizontal, two diagonals. */
  const OFFSETS: seq<(int, int)> := [(1, 0), (0, 1), (1, 1), (1, -1)]

  /** The k-th cell from (r, c) in direction (dr, dc) lies on the board and holds `p`. */
  predicate RunCell(b: Cells, p: Player, r: int, c: int, dr: int, dc: int, k: int)
    requires Shaped(b)
  {
    InGrid(r + k * dr, c + k * dc) && b[r + k * dr][c + k * dc] == p
  }

  /** WIN_COUNT cells from (r, c) in direction (dr, dc) all lie on the board and hold `p`. */
  predicate Line(b: Cells, p: Player, r: int, c: int, dr: int, dc: int)
    requires Shaped(b)
  {
    forall k :: 0 <= k < WIN_COUNT ==> RunCell(b, p, r, c, dr, dc, k)
  }

  /** Some cell starts a line of WIN_COUNT discs of `p` in one of the four directions. */
  ghost predicate HasFour(b: Cells, p: Player)
    requires Shaped(b)
  {
    exists r, c, i :: InGrid(r, c) && 0 <= i < |OFFSETS| && Line(b, p, r, c, OFFSETS[i].0, OFFSETS[i].1)
  }

  // ---------------------------------------------------------------------
  // Lemmas
  // ---------------------------------------------------------------------

  /** Setting one cell of a row changes its count of `p` by what left and what came in. */
  lemma {:induction false} CountRowSet(row: seq<Player>, c: int, q: Player, p: Player)
    requires 0 <= c < |row|
    ensures CountRow(row[c := q], p)
            == CountRow(row, p) - (if row[c] == p then 1 else 0) + (if q == p then 1 else 0)
  {
    var n := |row| - 1;
    if c == n {
      assert row[c := q][..n] == row[..n];
    } else {
      assert row[c := q][..n] == row[..n][c := q];
      CountRowSet(row[..n], c, q, p);
    }
  }

  /** Placing `q` on cell (r, c) changes the count of `p` by what left and what came in. */
  lemma {:induction false} CountPlace(b: Cells, r: int, c: int, q: Player, p: Player)
    requires 0 <= r < |b| && 0 <= c < |b[r]|
    ensures Count(Place(b, r, c, q), p)
            == Count(b, p) - (if b[r][c] == p then 1 else 0) + (if q == p then 1 else 0)
  {
    var n := |b| - 1;
    if r == n {
      assert Place(b, r, c, q)[..n] == b[..n];
      CountRowSet(b[r], c, q, p);
    } else {
      assert Place(b, r, c, q)[..n] == Place(b[..n], r, c, q);
      CountPlace(b[..n], r, c, q, p);
    }
  }

  /** A row of empty cells holds no disc of a player. */
  lemma {:induction false} CountRowOfEmpty(row: seq<Player>, p: Player)
    requires p != None && forall c :: 0 <= c < |row| ==> row[c] == None
    ensures CountRow(row, p) == 0
  {
    if row != [] {
      CountRowOfEmpty(row[..|row| - 1], p);
    }
  }

  /** A matrix of empty cells holds no disc of a player. */
  lemma {:induction false} CountOfEmpty(b: Cells, p: Player)
    requires p != None && forall r, c :: 0 <= r < |b| && 0 <= c < |b[r]| ==> b[r][c] == None
    ensures Count(b, p) == 0
  {
    if b != [] {
      CountOfEmpty(b[..|b| - 1], p);
      CountRowOfEmpty(b[|b| - 1], p);
    }
  }

  /** The cleared board passes every structural check, holds no disc and is not full. */
  lemma EmptyBoardIsValid()
    ensures Count(EmptyBoard(), Red) == 0 && Count(EmptyBoard(), Yellow) == 0
    ensures IsValid(EmptyBoard())
    ensures !IsFull(EmptyBoard())
  {
    var b := EmptyBoard();
    CountOfEmpty(b, Red);
    CountOfEmpty(b, Yellow);
    assert b[0][0] == None;
  }

  /** A disc that lands in the lowest empty cell keeps the shape and the gravity rule. */
  lemma PlaceAtLowestKeepsGravity(b: Cells, p: Player, col: int)
    requires Shaped(b) && Settled(b) && 0 <= col < COLS && LowestEmpty(b, col).Some?
    ensures Shaped(Place(b, LowestEmpty(b, col).value, col, p))
    ensures Settled(Place(b, LowestEmpty(b, col).value, col, p))
  {
  }

  /** The player on turn after an ordinary move: Yellow hands over to Red, anyone else to Yellow. */
  function Flip(p: Player): (q: Player)
    ensures q != None && q != p
  {
    if p == Yellow then Red else Yellow
  }

  /**
   * On a valid board, a drop into a column with room is rolled back exactly
   * when the dropping player already has one disc more than the other, and
   * the error then names the disc balance.
   */
  lemma DropRollsBackExactlyWhenAhead(b: Cells, p: Player, col: int)
    requires IsValid(b) && p != None && 0 <= col < COLS && LowestEmpty(b, col).Some?
    ensures DropDisc(b, p, col).result.Failure? <==> Count(b, p) == Count(b, Flip(p)) + 1
    ensures DropDisc(b, p, col).result.Failure? ==>
              DropDisc(b, p, col) == DropOutcome(Failure(InvalidOperationException(UnbalancedDiscs)), b)
  {
    var row := LowestEmpty(b, col).value;
    PlaceAtLowestKeepsGravity(b, p, col);
    CountPlace(b, row, col, p, Red);
    CountPlace(b, row, col, p, Yellow);
  }

  /**
   * On a valid board, a drop by a player who is not ahead into a column with
   * room succeeds, lands in the lowest empty cell and adds one disc of that
   * player and none of the other.
   */
  lemma DropByPlayerNotAhead(b: Cells, p: Player, col: int, row: int)
    requires IsValid(b) && p != None && 0 <= col < COLS && LowestEmpty(b, col) == Some(row)
    requires Count(b, p) != Count(b, Flip(p)) + 1
    ensures DropDisc(b, p, col) == DropOutcome(Success(true), Place(b, row, col, p))
    ensures IsValid(Place(b, row, col, p))
    ensures Count(Place(b, row, col, p), p) == Count(b, p) + 1
    ensures Count(Place(b, row, col, p), Flip(p)) == Count(b, Flip(p))
  {
    DropRollsBackExactlyWhenAhead(b, p, col);
    CountPlace(b, row, col, p, p);
    CountPlace(b, row, col, p, Flip(p));
  }

  /**
   * A successful drop writes `p` into the lowest empty cell of the column,
   * below which the column is full, and changes no other cell.
   */
  lemma DropChangesOnlyLandingCell(b: Cells, p: Player, col: int)
    requires Shaped(b) && 0 <= col < COLS && DropDisc(b, p, col).result == Success(true)
    ensures LowestEmpty(b, col).Some?
    ensures var row := LowestEmpty(b, col).value;
            var b' := DropDisc(b, p, col).after;
            && b[row][col] == None && b'[row][col] == p
            && (forall k :: row < k < ROWS ==> b[k][col] != None)
            && (forall r, c :: InGrid(r, c) && (r != row || c != col) ==> b'[r][c] == b[r][c])
  {
  }

  /** A drop that does not succeed leaves every cell as it was. */
  lemma DropFailureLeavesBoard(b: Cells, p: Player, col: int)
    requires Shaped(b) && DropDisc(b, p, col).result != Success(true)
    ensures DropDisc(b, p, col).after == b
    ensures DropDisc(b, p, col).result == Failure(ArgumentException(ColumnOutOfRange)) <==> col < 0 || col >= COLS
    ensures DropDisc(b, p, col).result == Success(false) <==> 0 <= col < COLS && LowestEmpty(b, col) == Nothing
  {
  }

  /** The board is full exactly when a drop into any column answers false. */
  lemma FullIffEveryColumnRefuses(b: Cells, p: Player)
    requires Shaped(b)
    ensures IsFull(b) <==> forall col :: 0 <= col < COLS ==> DropDisc(b, p, col).result == Success(false)
  {
    if IsFull(b) {
      forall col | 0 <= col < COLS ensures DropDisc(b, p, col).result == Success(false) {
      }
    } else {
      var r, c :| InGrid(r, c) && b[r][c] == None;
      assert LowestEmpty(b, c).Some?;
      assert DropDisc(b, p, c).result != Success(false);
    }
  }

  /** A line of discs survives a disc landing on an empty cell. */
  lemma HasFourSurvivesPlacement(b: Cells, p: Player, r: int, c: int, q: Player)
    requires Shaped(b) && InGrid(r, c) && b[r][c] == None && p != None && HasFour(b, p)
    ensures HasFour(Place(b, r, c, q), p)
  {
    var b' := Place(b, r, c, q);
    var r0, c0, i :| InGrid(r0, c0) && 0 <= i < |OFFSETS| && Line(b, p, r0, c0, OFFSETS[i].0, OFFSETS[i].1);
    var (dr, dc) := OFFSETS[i];
    forall k | 0 <= k < WIN_COUNT ensures RunCell(b', p, r0, c0, dr, dc, k) {
      assert RunCell(b, p, r0, c0, dr, dc, k);
    }
    assert Line(b', p, r0, c0, OFFSETS[i].0, OFFSETS[i].1);
  }

  /** A player with a single disc on the board has no line. */
  lemma LoneDiscMakesNoLine(b: Cells, p: Player, r0: int, c0: int)
    requires Shaped(b)
    requires forall r, c :: InGrid(r, c) && b[r][c] == p ==> r == r0 && c == c0
    ensures !HasFour(b, p)
  {
    forall r, c, i | InGrid(r, c) && 0 <= i < |OFFSETS| ensures !Line(b, p, r, c, OFFSETS[i].0, OFFSETS[i].1) {
      var (dr, dc) := OFFSETS[i];
      if RunCell(b, p, r, c, dr, dc, 0) {
        assert !RunCell(b, p, r, c, dr, dc, 1);
      }
    }
  }
}

