# Connect Four rules engine in Dafny

This project models the `Board` of a console Connect Four game
(`connect_four.py`): a `height × width` grid of cells, discs dropped into a
column under gravity, and the check after each drop of whether the new disc
completed four in a line. The model proves what a placement does to the grid
and what it reports, and it proves that the local, capped run counting used
to detect a win agrees exactly with a declarative definition of four in a
line.

## Layout

- `connect_four.dfy`, module `ConnectFour`:
  - the values: `Side` (player or computer), `Cell` (empty or a disc of a
    side), `GameError` (the three exception kinds of the source), `Outcome`
    (`Won` for `True`, `Continue` for `False`, `Failed(e)` for a raised
    error), `Direction` with its `Offset` table;
  - the class `Board`, whose `width`, `height` and `grid: array2<Cell>` are
    fixed at construction. `PlaceDisc` changes the cells of `grid` in
    place. The read-only operations are a function (`GetDiscByDirection`)
    and methods with the source's loops (`CountDiscs`, `IsFull`). The win
    check keeps the source's fixed axis order (`CountDiscsByDirectionsPair`,
    `IsGameWon`).
  - ghost predicates that specify the grid declaratively. `LineOfFour` and
    `WinningLineThrough` hold when four equal cells lie on a horizontal,
    vertical or diagonal line through a cell. `Full` holds when no cell is
    empty. `LandingRow` names the lowest empty cell of a column. `Settled`
    holds when no column has an empty cell below a disc. `DiscCount` counts
    the discs on the board.
- `scenarios.dfy`, module `Scenarios`: two games from the source's tests,
  derived from the contracts alone. The first is the vertical win, plus a
  placement that is still accepted after it. The second is the draw
  position, where the last disc raises `BoardFull`.

Naming: the source calls the row `x` and the column `y` in its win-check
helpers, but calls the column `x` in `place_disc`. The model says `row` and
`col` everywhere. Direction offsets are `(row step, column step)`, and row 0
is the top of the board.

The source's `_get_disc_by_direction` checks only for negative coordinates.
A coordinate past the end of the board makes the list indexing raise, and
that exception is caught. The model writes both bounds as an explicit test.

Three behaviours of the code are kept as they are:

- `BoardFull` is raised after the last disc has been written
  (connect_four.py:191, 200-201). So on that path the grid has changed,
  which `PlaceDisc`'s third postcondition covers.
- The constructor does not check its dimensions (connect_four.py:53-60).
  The model takes `nat` dimensions, so an empty board is allowed.
- The board keeps no won or drawn state (connect_four.py:178-207). A
  placement after a win is handled like any other (`VerticalWinScenario`).

## Model

| member | source | states |
|---|---|---|
| `ConnectFour.Offset` | connect_four.py:42-51 | each of the eight directions is a unit move to a neighbouring cell, never the null move |
| `ConnectFour.Board.constructor` | connect_four.py:53-62 | the board has the given width and height, its grid is `height × width`, every cell is empty, and it holds no discs |
| `ConnectFour.Board.GetDiscByDirection` | connect_four.py:64-75 | the result is None exactly when the target cell is off the grid on either side; otherwise it is that cell's contents |
| `ConnectFour.Board.CountDiscs` | connect_four.py:77-98 | the count k is at most threshold − 1 = 3; the cells at steps 1..k all equal the given cell; if k < 3, step k+1 is off the grid or different |
| `ConnectFour.Board.CountDiscsByDirectionsPair` | connect_four.py:100-125 | the total is the capped run length along the first direction plus the capped run length along the second, plus one for the cell itself, so it lies between 1 and 7. For two opposite directions from a cell holding the given value, the total reaches 4 exactly when four equal cells lie in a line through that cell along the axis |
| `ConnectFour.Board.RunIsUnique` | connect_four.py:87-98 | a capped, maximal run from a cell has one length only, so the run counts above are exact values |
| `ConnectFour.Board.IsGameWon` | connect_four.py:127-168 | the result is true exactly when four cells equal to the one at (row, col) lie on a horizontal, vertical or diagonal line through it (sound and complete for `WinningLineThrough`) |
| `ConnectFour.Board.RunsMeetInLine` | connect_four.py:115-125 | two capped, maximal runs in opposite directions plus the centre reach 4 exactly when a window of four equal cells covers the centre on that axis |
| `ConnectFour.Board.IsFull` | connect_four.py:170-176 | true exactly when no cell of the grid is empty |
| `ConnectFour.Board.PlaceDisc` | connect_four.py:178-207 | out-of-range column: ColumnOutOfBounds and the grid is unchanged. Column with no empty cell: ColumnFull and the grid is unchanged. Otherwise the side's disc goes into the lowest empty cell of the column and no other cell changes. The disc count grows by one. The result is Won if the new disc is on a line of four, even on a full board; else BoardFull if no cell is empty; else Continue. A board with no holes under its discs keeps none |
| `ConnectFour.Board.SettledColumns` | connect_four.py:187-197 | on a board without holes, a column is full exactly when its top cell holds a disc, and every cell above the landing cell of a column is empty |
| `ConnectFour.Board.DiscsBelow` | connect_four.py:189-195 | on a board without holes, every cell below a disc holds a disc |
| `ConnectFour.Board.FullIffAllPlaced` | connect_four.py:170-176 | the board holds at most width·height discs, and it is full exactly when it holds width·height discs |
| `ConnectFour.RowDiscs` | connect_four.py:172-175 | a row holds at most as many discs as it has cells, and exactly that many when none of its cells is empty |
| `ConnectFour.GridDiscsFull` | connect_four.py:170-176 | a grid of equal-width rows holds at most rows·width discs, and exactly that many when no cell is empty |
| `ConnectFour.GridDiscsPlace` | connect_four.py:190-191 | writing a disc into an empty cell of a grid adds exactly one disc |
| `ConnectFour.RowNoDiscs` | connect_four.py:58-60 | a row of empty cells, as the constructor builds, holds no disc |
| `ConnectFour.GridNoDiscs` | connect_four.py:58-60 | a grid of empty cells, as the constructor builds, holds no disc, so a new board starts from a disc count of 0 |
| `ConnectFour.GridDiscsDrop` | connect_four.py:189-191 | two grids of the same shape that differ only in one cell, empty before and a disc after, differ by exactly one disc |
| `ConnectFour.RowDiscsPlace` | connect_four.py:190-191 | writing a disc into an empty cell of a row adds exactly one disc to it |
| `Scenarios.ColumnOfFour` | test_connect_four.py:138-151 | a stack of at least four player discs at the bottom of the first column is a winning line through its top disc |
| `Scenarios.ShortStackNoLine` | test_connect_four.py:138-148 | a stack of one to three player discs at the bottom of the first column, with every other cell empty, has no line of four through its top disc |
| `Scenarios.DropOntoStack` | test_connect_four.py:138-151 | a player disc dropped onto a stack of n player discs in the first column lands on top of it. The result is Continue while the stack has fewer than four discs, and Won once it has four |
| `Scenarios.VerticalWinScenario` | test_connect_four.py:138-151 | on a new 7 × 6 board, the first three discs dropped into one column give Continue and the fourth wins. A later disc in another column is still accepted, with Won or Continue |
| `Scenarios.NoLineAtLastDisc` | test_connect_four.py:57-119 | in the completed draw position, the last computer disc (row 2, last column) is on no line of four |
| `Scenarios.DrawScenario` | test_connect_four.py:57-119 | from the tests' draw position, the computer's disc in the last column fills the board without a win, and the placement raises BoardFull |

## Left out

- `print_status` (connect_four.py:209-215) only prints the grid to the console.
- The `__main__` game loop (connect_four.py:218-268) and `app/__main__.py`
  are left out. They are console input and output, a random opponent and
  process exit around `place_disc`. The module they import as `.board` is
  not part of this model.
- The `x is None or x == ""` guards of `place_disc` are not modelled. They
  exist only because Python is dynamically typed; the column is an `int`
  here.
- The `char_map` lookup is not modelled. It could raise `KeyError` for an
  unknown side name. The side is a two-valued datatype here, and its disc is
  `Disc(side)`.
- The marker characters "-", "X" and "O" are the grid's cell values. The
  code compares cells with the empty marker (connect_four.py:174, 190) and
  writes a side's marker into the grid (connect_four.py:191). Only their
  distinctness affects behaviour; the characters themselves show only in
  printing. The model keeps the distinction as `Empty` and `Disc(side)`.
- The exception messages and the exception class hierarchy are reduced to
  the variants of `GameError`.
- The branch of `_count_discs_by_directions_pairs` that returns 0 for an
  unknown direction key is not modelled. The `Direction` datatype makes an
  unknown key impossible.
- The `threshold` parameter of `_count_discs` is always left at its default,
  so the model uses the constant `Threshold = 4`.
- Negative board dimensions are not modelled; width and height are `nat`.
