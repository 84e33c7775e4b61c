/** Rules engine of a Connect Four game: a grid of cells that fills column by
    column under gravity, and a local check for four discs in a line through
    the disc just placed. Rows are numbered from the top (row 0) to the bottom
    (row height - 1); columns from the left. */
module ConnectFour {

  /** The two sides of a game. */
  datatype Side = Player | Computer

  /** Contents of one slot of the grid: empty, or a disc of one side. */
  datatype Cell = Empty | Disc(owner: Side)

  /** The three kinds of game error, all raised by a placement. */
  datatype GameError = ColumnOutOfBounds | ColumnFull | BoardFull

  /** What a placement reports: the disc won the game, the game goes on, or
      an error was raised. A draw is reported as the error BoardFull. */
  datatype Outcome = Won | Continue | Failed(error: GameError)

  datatype Option<T> = None | Some(value: T)

  /** The eight unit moves on the grid. */
  datatype Direction =
    | Left | Right | Up | Down
    | UpperLeft | UpperRight | LowerLeft | LowerRight

  /** (row step, column step) of each direction. */
  function Offset(d: Direction): (delta: (int, int))
    ensures -1 <= delta.0 <= 1 && -1 <= delta.1 <= 1 && delta != (0, 0)
  {
    match d
    case Left => (0, -1)
    case Right => (0, 1)
    case Up => (-1, 0)
    case Down => (1, 0)
    case UpperLeft => (-1, -1)
    case UpperRight => (-1, 1)
    case LowerLeft => (1, -1)
    case LowerRight => (1, 1)
  }

  /** Length of a winning line. */
  const Threshold: nat := 4

  /** Number of discs (non-empty cells) in a row of cells. */
  function RowDiscs(row: seq<Cell>): (n: nat)
    ensures n <= |row|
    ensures n == |row| <==> forall j :: 0 <= j < |row| ==> row[j] != Empty
  {
    if row == [] then 0
    else (if row[0] != Empty then 1 else 0) + RowDiscs(row[1..])
  }

  /** Number of discs in a grid given as a sequence of rows. */
  function GridDiscs(rows: seq<seq<Cell>>): (n: nat)
  {
    if rows == [] then 0 else RowDiscs(rows[0]) + GridDiscs(rows[1..])
  }

  /** A grid of rows of equal width holds at most height * width discs, and
      holds that many exactly when no cell is empty. */
  lemma {:induction false} GridDiscsFull(rows: seq<seq<Cell>>, width: nat)
    requires forall i :: 0 <= i < |rows| ==> |rows[i]| == width
    ensures GridDiscs(rows) <= |rows| * width
    ensures GridDiscs(rows) == |rows| * width <==>
      forall i, j :: 0 <= i < |rows| && 0 <= j < width ==> rows[i][j] != Empty
  {
    if rows != [] {
      GridDiscsFull(rows[1..], width);
      assert |rows| * width == width + (|rows| - 1) * width;
      if GridDiscs(rows) == |rows| * width {
        forall i, j | 0 <= i < |rows| && 0 <= j < width
          ensures rows[i][j] != Empty
        {
          if i > 0 {
            assert rows[i] == rows[1..][i - 1];
          }
        }
      }
      if forall i, j :: 0 <= i < |rows| && 0 <= j < width ==> rows[i][j] != Empty {
        assert forall j :: 0 <= j < |rows[0]| ==> rows[0][j] != Empty;
        forall i, j | 0 <= i < |rows| - 1 && 0 <= j < width
          ensures rows[1..][i][j] != Empty
        {
          assert rows[1..][i] == rows[i + 1];
        }
      }
    }
  }

  /** A row of empty cells holds no disc. */
  lemma {:induction false} RowNoDiscs(row: seq<Cell>)
    requires forall j :: 0 <= j < |row| ==> row[j] == Empty
    ensures RowDiscs(row) == 0
  {
    if row != [] {
      RowNoDiscs(row[1..]);
    }
  }

  /** A grid of empty cells holds no disc. */
  lemma {:induction false} GridNoDiscs(rows: seq<seq<Cell>>)
    requires forall i, j :: 0 <= i < |rows| && 0 <= j < |rows[i]| ==> rows[i][j] == Empty
    ensures GridDiscs(rows) == 0
  {
    if rows != [] {
      RowNoDiscs(rows[0]);
      forall i, j | 0 <= i < |rows| - 1 && 0 <= j < |rows[1..][i]|
        ensures rows[1..][i][j] == Empty
      {
        assert rows[1..][i] == rows[i + 1];
      }
      GridNoDiscs(rows[1..]);
    }
  }

  /** Two grids of the same shape that differ only in one cell, empty in the
      first and holding a disc in the second, differ by exactly one disc. */
  lemma GridDiscsDrop(before: seq<seq<Cell>>, after: seq<seq<Cell>>, i: nat, j: nat)
    requires |after| == |before| && i < |before| && j < |before[i]|
    requires forall r :: 0 <= r < |before| ==> |after[r]| == |before[r]|
    requires before[i][j] == Empty && after[i][j] != Empty
    requires forall r, c :: 0 <= r < |before| && 0 <= c < |before[r]| && (r, c) != (i, j) ==>
      after[r][c] == before[r][c]
    ensures GridDiscs(after) == GridDiscs(before) + 1
  {
    var placed := before[i := before[i][j := after[i][j]]];
    forall r | 0 <= r < |before| ensures after[r] == placed[r] {
      assert |after[r]| == |placed[r]|;
    }
    assert after == placed;
    GridDiscsPlace(before, i, j, after[i][j]);
  }

  /** Dropping a disc into an empty cell of a row adds one disc to it. */
  lemma {:induction false} RowDiscsPlace(row: seq<Cell>, j: nat, d: Cell)
    requires j < |row| && row[j] == Empty && d != Empty
    ensures RowDiscs(row[j := d]) == RowDiscs(row) + 1
  {
    if j == 0 {
      assert row[j := d][1..] == row[1..];
    } else {
      assert row[j := d][1..] == row[1..][j - 1 := d];
      RowDiscsPlace(row[1..], j - 1, d);
    }
  }

  /** Dropping a disc into an empty cell of a grid adds one disc to it. */
  lemma {:induction false} GridDiscsPlace(rows: seq<seq<Cell>>, i: nat, j: nat, d: Cell)
    requires i < |rows| && j < |rows[i]| && rows[i][j] == Empty && d != Empty
    ensures GridDiscs(rows[i := rows[i][j := d]]) == GridDiscs(rows) + 1
  {
    if i == 0 {
      assert rows[i := rows[i][j := d]][1..] == rows[1..];
      RowDiscsPlace(rows[0], j, d);
    } else {
      assert rows[i := rows[i][j := d]][1..] == rows[1..][i - 1 := rows[i][j := d]];
      GridDiscsPlace(rows[1..], i - 1, j, d);
    }
  }

  /** The board of one game. Its dimensions and its grid object are fixed at
      construction; placements change the grid's cells in place. */
  class Board {
    const width: nat
    const height: nat
    const grid: array2<Cell>

    predicate Valid()
    {
      grid.Length0 == height && grid.Length1 == width
    }

    predicate InGrid(row: int, col: int)
    {
      0 <= row < height && 0 <= col < width
    }

    /** A fresh board of the given size with every cell empty. */
    constructor (width: nat, height: nat)
      ensures this.width == width && this.height == height
      ensures Valid() && fresh(grid)
      ensures forall r, c :: InGrid(r, c) ==> grid[r, c] == Empty
      ensures DiscCount() == 0
    {
      this.width := width;
      this.height := height;
      grid := new Cell[height, width]((r, c) => Empty);
      new;
      GridNoDiscs(Cells());
    }

    // ---------------------------------------------------------------
    // Specification of the grid's state
    // ---------------------------------------------------------------

    /** The grid as a sequence of rows. */
    ghost function Cells(): (rows: seq<seq<Cell>>)
      requires Valid()
      reads grid
      ensures |rows| == height
      ensures forall r :: 0 <= r < height ==> |rows[r]| == width
      ensures forall r, c :: InGrid(r, c) ==> rows[r][c] == grid[r, c]
    {
      seq(height, r requires 0 <= r < height reads grid =>
        seq(width, c requires 0 <= c < width reads grid => grid[r, c]))
    }

    /** Number of discs on the board. */
    ghost function DiscCount(): (n: nat)
      requires Valid()
      reads grid
    {
      GridDiscs(Cells())
    }

    /** No cell of the board is empty. */
    ghost predicate Full()
      requires Valid()
      reads grid
    {
      forall r, c :: InGrid(r, c) ==> grid[r, c] != Empty
    }

    /** No cell of column col is empty. */
    ghost predicate ColumnIsFull(col: int)
      requires Valid() && 0 <= col < width
      reads grid
    {
      forall r :: 0 <= r < height ==> grid[r, col] != Empty
    }

    /** row is the lowest empty cell of column col. */
    ghost predicate LandingRow(col: int, row: int)
      requires Valid()
      reads grid
    {
      InGrid(row, col) && grid[row, col] == Empty &&
      forall r :: row < r < height ==> grid[r, col] != Empty
    }

    /** A disc at (row, col) rests on the bottom or on another disc. */
    ghost predicate Supported(row: int, col: int)
      requires Valid() && InGrid(row, col)
      reads grid
    {
      grid[row, col] != Empty ==> row == height - 1 || grid[row + 1, col] != Empty
    }

    /** No column has an empty cell below a disc. */
    ghost predicate Settled()
      requires Valid()
      reads grid
    {
      forall r, c :: InGrid(r, c) ==> Supported(r, c)
    }

    /** (row, col) is on the grid and holds cell. */
    ghost predicate Holds(row: int, col: int, cell: Cell)
      requires Valid()
      reads grid
    {
      InGrid(row, col) && grid[row, col] == cell
    }

    /** The cell k steps away from (row, col) along (dRow, dCol) holds cell. */
    ghost predicate StepMatches(row: int, col: int, dRow: int, dCol: int, k: int, cell: Cell)
      requires Valid()
      reads grid
    {
      Holds(row + dRow * k, col + dCol * k, cell)
    }

    /** The four cells at steps s .. s + 3 along (dRow, dCol) all hold cell. */
    ghost predicate WindowMatches(row: int, col: int, dRow: int, dCol: int, s: int, cell: Cell)
      requires Valid()
      reads grid
    {
      forall k :: s <= k < s + Threshold ==> StepMatches(row, col, dRow, dCol, k, cell)
    }

    /** Four consecutive cells holding cell lie on the line through (row, col)
        along (dRow, dCol), one of them being (row, col) itself. */
    ghost predicate LineOfFour(row: int, col: int, dRow: int, dCol: int, cell: Cell)
      requires Valid()
      reads grid
    {
      exists s :: -(Threshold - 1) <= s <= 0 && WindowMatches(row, col, dRow, dCol, s, cell)
    }

    /** Four consecutive cells equal to the one at (row, col) lie on a
        horizontal, vertical or diagonal line through (row, col). */
    ghost predicate WinningLineThrough(row: int, col: int)
      requires Valid() && InGrid(row, col)
      reads grid
    {
      var cell := grid[row, col];
      LineOfFour(row, col, 0, 1, cell) || LineOfFour(row, col, 1, 0, cell) ||
      LineOfFour(row, col, 1, 1, cell) || LineOfFour(row, col, 1, -1, cell)
    }

    /** Steps 1 .. n along (dRow, dCol) hold cell and, below the cap of
        Threshold - 1 steps, step n + 1 does not. */
    ghost predicate IsRun(cell: Cell, row: int, col: int, dRow: int, dCol: int, n: nat)
      requires Valid()
      reads grid
    {
      n <= Threshold - 1 &&
      (forall k :: 1 <= k <= n ==> StepMatches(row, col, dRow, dCol, k, cell)) &&
      (n < Threshold - 1 ==> !StepMatches(row, col, dRow, dCol, n + 1, cell))
    }

    // ---------------------------------------------------------------
    // Operations
    // ---------------------------------------------------------------

    /** The cell reached from (row, col) by the move (dRow, dCol), or None
        when that move leaves the grid. */
    function GetDiscByDirection(row: int, col: int, dRow: int, dCol: int): (disc: Option<Cell>)
      requires Valid()
      reads grid
      ensures disc == None <==> !InGrid(row + dRow, col + dCol)
      ensures disc != None ==> InGrid(row + dRow, col + dCol) && disc.value == grid[row + dRow, col + dCol]
    {
      if row + dRow >= 0 && col + dCol >= 0 then
        // The upper bounds are where the list indexing would fail.
        if row + dRow < height && col + dCol < width then Some(grid[row + dRow, col + dCol]) else None
      else
        None
    }

    /** Number of consecutive cells equal to cell met from (row, col) along
        (dRow, dCol), not counting (row, col) and capped at Threshold - 1. */
    method CountDiscs(cell: Cell, row: int, col: int, dRow: int, dCol: int) returns (count: nat)
      requires Valid()
      ensures IsRun(cell, row, col, dRow, dCol, count)
    {
      count := 0;
      var step := 1;
      while step < Threshold
        invariant 1 <= step <= Threshold
        invariant count == step - 1
        invariant forall k :: 1 <= k <= count ==> StepMatches(row, col, dRow, dCol, k, cell)
      {
        if GetDiscByDirection(row, col, dRow * step, dCol * step) == Some(cell) {
          count := count + 1;
        } else {
          break;
        }
        step := step + 1;
      }
    }

    /** Length of the line of cells equal to cell through (row, col) along the
        axis made of directions first and second, (row, col) included. */
    method CountDiscsByDirectionsPair(cell: Cell, row: int, col: int, first: Direction, second: Direction)
      returns (total: nat)
      requires Valid()
      ensures 1 <= total <= 2 * Threshold - 1
      ensures exists a: nat, b: nat ::
        IsRun(cell, row, col, Offset(first).0, Offset(first).1, a) &&
        IsRun(cell, row, col, Offset(second).0, Offset(second).1, b) &&
        total == a + b + 1
      ensures Holds(row, col, cell) && Offset(first) == (-Offset(second).0, -Offset(second).1) ==>
        (total >= Threshold <==> LineOfFour(row, col, Offset(second).0, Offset(second).1, cell))
    {
      var firstCount := CountDiscs(cell, row, col, Offset(first).0, Offset(first).1);
      var secondCount := CountDiscs(cell, row, col, Offset(second).0, Offset(second).1);
      total := firstCount + secondCount + 1;
      assert IsRun(cell, row, col, Offset(first).0, Offset(first).1, firstCount) &&
        IsRun(cell, row, col, Offset(second).0, Offset(second).1, secondCount);
      if Holds(row, col, cell) && Offset(first) == (-Offset(second).0, -Offset(second).1) {
        RunsMeetInLine(cell, row, col, Offset(second).0, Offset(second).1, firstCount, secondCount);
      }
    }

    /** Whether the disc at (row, col) is part of four in a line. The four
        axes are tried in a fixed order: horizontal, vertical, the diagonal
        falling to the right, the diagonal rising to the right. */
    method IsGameWon(row: int, col: int) returns (won: bool)
      requires Valid() && InGrid(row, col)
      ensures won <==> WinningLineThrough(row, col)
    {
      var cell := grid[row, col];
      var count := CountDiscsByDirectionsPair(cell, row, col, Left, Right);
      if count >= Threshold {
        return true;
      }
      count := CountDiscsByDirectionsPair(cell, row, col, Up, Down);
      if count >= Threshold {
        return true;
      }
      count := CountDiscsByDirectionsPair(cell, row, col, UpperLeft, LowerRight);
      if count >= Threshold {
        return true;
      }
      count := CountDiscsByDirectionsPair(cell, row, col, UpperRight, LowerLeft);
      if count >= Threshold {
        return true;
      }
      return false;
    }

    /** Whether the board has run out of space. */
    method IsFull() returns (full: bool)
      requires Valid()
      ensures full <==> Full()
    {
      for r := 0 to height
        invariant forall i, c :: 0 <= i < r && 0 <= c < width ==> grid[i, c] != Empty
      {
        for c := 0 to width
          invariant forall j :: 0 <= j < c ==> grid[r, j] != Empty
        {
          if grid[r, c] == Empty {
            return false;
          }
        }
      }
      return true;
    }

    /** Drops a disc of side into column col. It lands on the lowest empty
        cell of the column; then the placement reports a win, the error
        BoardFull when the board has no empty cell left and no win was made,
        or else that the game goes on. */
    method PlaceDisc(col: int, side: Side) returns (outcome: Outcome)
      requires Valid()
      modifies grid
      ensures !(0 <= col < width) ==> outcome == Failed(ColumnOutOfBounds) && unchanged(grid)
      ensures 0 <= col < width && old(ColumnIsFull(col)) ==>
        outcome == Failed(ColumnFull) && unchanged(grid)
      ensures 0 <= col < width && !old(ColumnIsFull(col)) ==>
        exists row :: old(LandingRow(col, row)) && grid[row, col] == Disc(side) &&
          (forall r, c :: InGrid(r, c) && (r, c) != (row, col) ==> grid[r, c] == old(grid[r, c])) &&
          DiscCount() == old(DiscCount()) + 1 &&
          outcome == (if WinningLineThrough(row, col) then Won
                      else if Full() then Failed(BoardFull)
                      else Continue)
      ensures old(Settled()) ==> Settled()
    {
      if col < 0 || col >= width {
        return Failed(ColumnOutOfBounds);
      }
      ghost var before := Cells();
      var added := false;
      var newRow := 0;
      var idx := height - 1;
      while idx >= 0
        invariant -1 <= idx < height
        invariant forall r :: idx < r < height ==> grid[r, col] != Empty
        invariant unchanged(grid)
      {
        if grid[idx, col] == Empty {
          grid[idx, col] := Disc(side);
          added := true;
          newRow := idx;
          break;
        }
        idx := idx - 1;
      }
      if added {
        assert old(LandingRow(col, newRow));
        assert forall r, c :: InGrid(r, c) && (r, c) != (newRow, col) ==> grid[r, c] == old(grid[r, c]);
        if old(Settled()) {
          forall r, c | InGrid(r, c) ensures Supported(r, c) {
            assert old(Supported(r, c));
          }
        }
        GridDiscsDrop(before, Cells(), newRow, col);
        var won := IsGameWon(newRow, col);
        if !won {
          var full := IsFull();
          if full {
            outcome := Failed(BoardFull);
          } else {
            outcome := Continue;
          }
        } else {
          outcome := Won;
        }
      } else {
        outcome := Failed(ColumnFull);
      }
    }

    // ---------------------------------------------------------------
    // Lemmas
    // ---------------------------------------------------------------


    /** Capped runs of back steps along (-dRow, -dCol) and ahead steps along
        (dRow, dCol) from a cell holding cell add up, with that cell, to at
        least Threshold exactly when four cells holding cell lie in a line
        through it along that axis. */
    lemma RunsMeetInLine(cell: Cell, row: int, col: int, dRow: int, dCol: int, back: nat, ahead: nat)
      requires Valid() && Holds(row, col, cell)
      requires IsRun(cell, row, col, -dRow, -dCol, back)
      requires IsRun(cell, row, col, dRow, dCol, ahead)
      ensures back + ahead + 1 >= Threshold <==> LineOfFour(row, col, dRow, dCol, cell)
    {
      assert StepMatches(row, col, dRow, dCol, 0, cell);
      var start := -(back as int);
      if back + ahead + 1 >= Threshold {
        forall k | start <= k < start + Threshold
          ensures StepMatches(row, col, dRow, dCol, k, cell)
        {
          if k < 0 {
            StepReversed(row, col, dRow, dCol, -k, cell);
          }
        }
        assert WindowMatches(row, col, dRow, dCol, start, cell);
      }
      if LineOfFour(row, col, dRow, dCol, cell) {
        var s :| -(Threshold - 1) <= s <= 0 && WindowMatches(row, col, dRow, dCol, s, cell);
        if back < Threshold - 1 {
          StepReversed(row, col, dRow, dCol, back + 1, cell);
          assert !StepMatches(row, col, dRow, dCol, -(back + 1), cell);
          assert back >= -s;
        }
        if ahead < Threshold - 1 {
          assert !StepMatches(row, col, dRow, dCol, ahead + 1, cell);
          assert ahead >= s + Threshold - 1;
        }
      }
    }

    /** Walking k steps along (-dRow, -dCol) is walking -k steps along (dRow, dCol). */
    lemma StepReversed(row: int, col: int, dRow: int, dCol: int, k: int, cell: Cell)
      requires Valid()
      ensures StepMatches(row, col, -dRow, -dCol, k, cell) <==> StepMatches(row, col, dRow, dCol, -k, cell)
    {
    }

    /** A capped run has one length only: IsRun determines the count. */
    lemma RunIsUnique(cell: Cell, row: int, col: int, dRow: int, dCol: int, n: nat, m: nat)
      requires Valid()
      requires IsRun(cell, row, col, dRow, dCol, n) && IsRun(cell, row, col, dRow, dCol, m)
      ensures n == m
    {
    }

    /** In a settled board every cell below a disc holds a disc. */
    lemma {:induction false} DiscsBelow(row: int, col: int, r: int)
      requires Valid() && Settled() && InGrid(row, col) && grid[row, col] != Empty
      requires row <= r < height
      ensures grid[r, col] != Empty
      decreases r - row
    {
      if r > row {
        DiscsBelow(row, col, r - 1);
        assert Supported(r - 1, col);
      }
    }

    /** In a settled board a column is full exactly when its top cell holds a
        disc, and the cells above the landing row of a column are all empty. */
    lemma SettledColumns(col: int)
      requires Valid() && Settled() && 0 <= col < width && height > 0
      ensures ColumnIsFull(col) <==> grid[0, col] != Empty
      ensures forall row, r :: LandingRow(col, row) && 0 <= r < row ==> grid[r, col] == Empty
    {
      if grid[0, col] != Empty {
        forall r | 0 <= r < height ensures grid[r, col] != Empty {
          DiscsBelow(0, col, r);
        }
      }
      forall row, r | LandingRow(col, row) && 0 <= r < row ensures grid[r, col] == Empty {
        if grid[r, col] != Empty {
          DiscsBelow(r, col, row);
        }
      }
    }

    /** The board is full exactly when it holds width * height discs. */
    lemma FullIffAllPlaced()
      requires Valid()
      ensures DiscCount() <= width * height
      ensures Full() <==> DiscCount() == width * height
    {
      var rows := Cells();
      GridDiscsFull(rows, width);
      assert |rows| * width == width * height;
    }
  }
}
