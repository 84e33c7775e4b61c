/** Two games of the game's own tests played out against the contracts of the
    board: the vertical win, and the draw whose last disc raises BoardFull,
    both derived from what PlaceDisc promises. */
module Scenarios {
  import opened ConnectFour

  /** Column 0 of board holds n discs of the player at its bottom and every
      other cell is empty. */
  ghost predicate Stacked(board: Board, n: int)
    requires board.Valid()
    reads board.grid
  {
    forall r, c :: board.InGrid(r, c) ==>
      board.grid[r, c] == if c == 0 && r >= board.height - n then Disc(Player) else Empty
  }

  /** A stack of at least four player discs in column 0 is a winning line
      through its top disc. */
  lemma ColumnOfFour(board: Board, n: int)
    requires board.Valid() && Threshold <= n <= board.height && 0 < board.width
    requires Stacked(board, n)
    ensures board.WinningLineThrough(board.height - n, 0)
  {
    var top := board.height - n;
    forall k | 0 <= k < Threshold ensures board.StepMatches(top, 0, 1, 0, k, Disc(Player)) {
      assert board.grid[top + k, 0] == Disc(Player);
    }
    assert board.WindowMatches(top, 0, 1, 0, 0, Disc(Player));
  }

  /** A stack of one to three player discs in column 0, with every other
      cell empty, has no line of four through its top disc. */
  lemma ShortStackNoLine(board: Board, n: int)
    requires board.Valid() && 1 <= n < Threshold && n <= board.height && 0 < board.width
    requires Stacked(board, n)
    ensures !board.WinningLineThrough(board.height - n, 0)
  {
    var top := board.height - n;
    var p := Disc(Player);
    assert board.grid[top, 0] == p;
    // Each window of four along an axis contains a cell that is off the grid
    // or empty: the cells beside and above the top disc, or the cell below
    // the bottom of the column.
    forall s | -(Threshold - 1) <= s <= 0 ensures !board.WindowMatches(top, 0, 0, 1, s, p) {
      var k := if s < 0 then -1 else 1;
      assert !board.StepMatches(top, 0, 0, 1, k, p);
    }
    forall s | -(Threshold - 1) <= s <= 0 ensures !board.WindowMatches(top, 0, 1, 0, s, p) {
      var k := if s < 0 then -1 else n;
      assert !board.StepMatches(top, 0, 1, 0, k, p);
    }
    forall s | -(Threshold - 1) <= s <= 0 ensures !board.WindowMatches(top, 0, 1, 1, s, p) {
      var k := if s < 0 then -1 else 1;
      assert !board.StepMatches(top, 0, 1, 1, k, p);
    }
    forall s | -(Threshold - 1) <= s <= 0 ensures !board.WindowMatches(top, 0, 1, -1, s, p) {
      var k := if s < 0 then -1 else 1;
      assert !board.StepMatches(top, 0, 1, -1, k, p);
    }
  }

  /** One more player disc dropped into column 0 of a board holding only a
      stack of n player discs there lands on top of the stack; the game goes
      on while the stack is below four and is won once it reaches four. */
  method DropOntoStack(board: Board, n: int) returns (outcome: Outcome)
    requires board.Valid() && 0 <= n < board.height && 1 < board.width
    requires Stacked(board, n)
    modifies board.grid
    ensures Stacked(board, n + 1)
    ensures n + 1 < Threshold ==> outcome == Continue
    ensures n + 1 >= Threshold ==> outcome == Won
  {
    outcome := board.PlaceDisc(0, Player);
    assert old(board.LandingRow(0, board.height - n - 1));
    assert Stacked(board, n + 1);
    assert board.grid[0, 1] == Empty;
    assert !board.Full();
    if n + 1 >= Threshold {
      ColumnOfFour(board, n + 1);
    } else {
      ShortStackNoLine(board, n + 1);
    }
  }

  /** The vertical win of the game's tests on a 7-wide, 6-high board: of four
      discs of one side dropped into one column, the first three let the game
      go on and the fourth wins; the board still accepts a disc after the win. */
  method VerticalWinScenario() returns (first: Outcome, second: Outcome, third: Outcome,
                                        fourth: Outcome, afterWin: Outcome)
    ensures first == Continue && second == Continue && third == Continue
    ensures fourth == Won
    ensures afterWin == Won || afterWin == Continue
  {
    var board := new Board(7, 6);
    first := DropOntoStack(board, 0);
    second := DropOntoStack(board, 1);
    third := DropOntoStack(board, 2);
    fourth := DropOntoStack(board, 3);
    assert board.grid[5, 1] == Empty && board.grid[0, 6] == Empty;
    afterWin := board.PlaceDisc(1, Computer);
    assert board.grid[0, 6] == Empty;
    assert !board.Full();
  }

  /** Cell (row, col) of the draw position of the game's tests: rows 0-2 read
      OXOXOXO and rows 3-5 read XOXOXOX, X being the player, O the computer. */
  function DrawPattern(row: int, col: int): Cell
  {
    if (row < 3) == (col % 2 == 0) then Disc(Computer) else Disc(Player)
  }

  /** The draw position as the tests set it up on a 7-wide, 6-high board: its
      cell list leaves out row 2 of the last column, so that cell is empty
      while the two cells above it hold discs. */
  ghost predicate DrawPosition(board: Board)
    requires board.Valid()
    reads board.grid
  {
    board.width == 7 && board.height == 6 &&
    forall r, c :: board.InGrid(r, c) ==>
      board.grid[r, c] == if r == 2 && c == 6 then Empty else DrawPattern(r, c)
  }

  /** In the completed draw position the computer disc at row 2 of the last
      column is on no line of four. */
  lemma NoLineAtLastDisc(board: Board)
    requires board.Valid() && board.width == 7 && board.height == 6
    requires forall r, c :: board.InGrid(r, c) ==> board.grid[r, c] == DrawPattern(r, c)
    ensures !board.WinningLineThrough(2, 6)
  {
    var o := Disc(Computer);
    assert board.grid[2, 6] == o;
    // Each window of four along an axis contains a cell that is off the grid
    // or holds a player disc.
    forall s | -(Threshold - 1) <= s <= 0 ensures !board.WindowMatches(2, 6, 0, 1, s, o) {
      var k := if s < 0 then -1 else 1;
      assert !board.StepMatches(2, 6, 0, 1, k, o);
    }
    forall s | -(Threshold - 1) <= s <= 0 ensures !board.WindowMatches(2, 6, 1, 0, s, o) {
      var k := if s < -2 then -3 else 1;
      assert !board.StepMatches(2, 6, 1, 0, k, o);
    }
    forall s | -(Threshold - 1) <= s <= 0 ensures !board.WindowMatches(2, 6, 1, 1, s, o) {
      var k := if s < 0 then -1 else 1;
      assert !board.StepMatches(2, 6, 1, 1, k, o);
    }
    forall s | -(Threshold - 1) <= s <= 0 ensures !board.WindowMatches(2, 6, 1, -1, s, o) {
      var k := if s < 0 then -1 else 2;
      assert !board.StepMatches(2, 6, 1, -1, k, o);
    }
  }

  /** The draw of the game's tests: the computer's disc dropped into the last
      column fills the board without a win, and the placement raises
      BoardFull. */
  method DrawScenario(board: Board) returns (outcome: Outcome)
    requires board.Valid() && DrawPosition(board)
    modifies board.grid
    ensures outcome == Failed(BoardFull)
  {
    assert board.LandingRow(6, 2);
    outcome := board.PlaceDisc(6, Computer);
    assert forall r, c :: board.InGrid(r, c) ==> board.grid[r, c] == DrawPattern(r, c);
    NoLineAtLastDisc(board);
    assert board.Full();
  }
}
