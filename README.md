# Minesweeper auto-player: verified model of the decision core

The auto-player in `main.py` looks at a Minesweeper board on the screen, keeps
an internal board of integer cell codes (0 unopened, 1..8 an opened number,
9 a flag, -1 an exploded mine, -2 an opened blank) and repeatedly decides
what to do: stop on a win or a loss, click a cell that is certainly safe,
flag a cell that is certainly a mine, or click a random unopened cell.

This project models, in Dafny, everything of that loop that is integer
logic over the grid:

- `board.dfy` (module `Board`): the codes, and `get_neighbors` as a double
  offset loop (`GetNeighbors`) proved equal to the specification
  `Neighbors`: the in-bounds cells at Chebyshev distance 1, never the cell
  itself, at most eight, in `dr`-then-`dc` order, which is strictly ascending
  row-major order and so free of duplicates; and how many there are (three
  in a corner, five on an edge, eight inside).
- `rowmajor.dfy` (module `RowMajor`): the row-major double loop `for r: for
  c:` as a specification of "the first cell of a set" and "all cells of a
  set, in order", with their characterisations.
- `deduction.dfy` (module `Deduction`): `find_next_move`. `Survey` is the
  neighbour loop that counts flags and collects unopened neighbours;
  `TryCell` is the test of one numeric cell; `ScanRule` is the scan of
  strategy 1 or 2; `CollectUnopened` is the scan of strategy 3;
  `FindNextMove` chains them. Each method is proved equal to a
  specification function (`NextMove` for the whole engine), and the
  properties are lemmas about `NextMove`: which move strategy 1 makes and
  that it has priority, when and where strategy 2 flags, that every move
  targets an unopened cell, that there is no move exactly when no cell is
  unopened, and that on a board consistent with some mine layout the two
  deductions are sound (a flag always lands on a mine; a strategy-1 click
  never does).
- `status.dfy` (module `GameStatus`): `check_game_status` as its two
  passes, the first returning early at a mine and the second counting the
  unopened and flagged cells to the end, proved equal to `StatusOf`, with
  its meaning on boards holding only the codes the update loop writes.
- `update.dfy` (module `BoardUpdate`): the names the recogniser returns,
  their parsing into labels, the label-to-code rule with its inverse, and
  the in-place update loop of `update_internal_board`.
- `screen.dfy` (module `Screen`): the cell slice of `get_cell_image` and the
  click point of `get_cell_center_coords`, for any board corner, cell size
  and board size; the program's own geometry (corner (100, 200), 30-pixel
  cells, 9 x 9) is one instance.
- `autoplay.dfy` (module `AutoPlay`): one round of the main loop: status,
  then move or stop, then rescan.

The board is an `array2<int>` of any size (`Length0` rows, `Length1`
columns) rather than the fixed 9 x 9 of `main.py:17-18`; the per-cell loops
read it, and only `UpdateBoard` and `AutoPlay.Round` may write it. Because
`FindNextMove` and `CheckGameStatus` have no `modifies` clause, Dafny
guarantees that they leave the board unchanged (main.py:177-273 only read
`board_state`).

The random index of strategy 3 (`np.random.randint(len(unopened_cells))`,
main.py:236) is a parameter `rand: nat -> nat` with `rand(n) < n` for every
`n > 0` (`Deduction.RandomSource`): the move made is
`unopened_cells[rand(len(unopened_cells))]`.

The win test counts flags as unfinished cells (main.py:262), as written. As
`AutoPlay.StalledExactly` shows, a board with no mine showing, no unopened
cell and at least one flag is never reported as won; the engine then has no
move, and the main loop leaves through its "no move" branch
(main.py:333-338).

## Model

| member | source | states |
|---|---|---|
| `Board.Neighbors` | main.py:163-175 | the neighbour list has at most 8 entries, all on the board and at Chebyshev distance 1 from the cell, never the cell itself, in strictly ascending row-major order (so no duplicates) |
| `Board.GetNeighbors` | main.py:163-175 | the double offset loop with its skip of (0, 0) and its bounds test builds exactly `Neighbors` |
| `Board.NeighborsExactly` | main.py:167-173 | a cell is in the neighbour list if and only if it is on the board and adjacent to the cell |
| `Board.NeighborCount` | main.py:167-173 | an on-board cell has (rows within reach) x (columns within reach) - 1 neighbours |
| `Board.NeighborCountByPosition` | main.py:167-173 | on a board of at least 3 x 3: three neighbours in a corner, five on an edge, eight inside |
| `RowMajor.FirstCharacterized` | main.py:184-186 | the row-major scan finds nothing exactly when the set has no cell on the board, and otherwise finds the set's first cell in row-major order |
| `RowMajor.CellsExactly` | main.py:228-231 | the row-major collection lists exactly the set's cells on the board, in strictly ascending row-major order |
| `Deduction.UnopenedOf` | main.py:192-197 | the unopened neighbours collected are neighbours of the list, on the board, with code 0, and no more than the neighbours |
| `Deduction.Survey` | main.py:192-197 | the neighbour loop's counter is the number of flagged neighbours and its list the unopened neighbours, in neighbour order |
| `Deduction.TryCell` | main.py:186-202 | the per-cell test succeeds exactly when the cell is numeric, has an unopened neighbour and meets the rule's count condition, and then yields the first unopened neighbour |
| `Deduction.ScanRule` | main.py:184-202 | the scan of strategy 1 (and, with the other rule, of strategy 2 at main.py:205-224) returns the first unopened neighbour of the first cell in row-major order at which the rule fires, or nothing |
| `Deduction.ActOn` | main.py:200-202 | the cell a rule acts on exists exactly when the scan finds a firing cell, and is always an on-board cell with code 0 |
| `Deduction.CollectUnopened` | main.py:227-231 | the fallback's loop collects exactly the unopened-cell list of the specification |
| `Deduction.FindNextMove` | main.py:177-240 | strategy 1, else strategy 2, else a click on the drawn unopened cell, else no move, as the specification `NextMove` states |
| `Deduction.FirstFiringNone` | main.py:184-224 | a strategy's scan finds nothing exactly when no cell on the board meets its condition |
| `Deduction.FirstFiringFires` | main.py:184-224 | a cell a strategy's scan finds is on the board and meets the condition |
| `Deduction.FirstFiringCharacterized` | main.py:184-224 | a strategy's scan finds q exactly when q meets the condition and no cell before q in row-major order does |
| `Deduction.UnopenedOfEmpty` | main.py:192-202 | the unopened-neighbour list is empty exactly when no neighbour has code 0 |
| `Deduction.FirstUnopenedIndex` | main.py:192-202 | the first entry of the unopened list is the first code-0 cell of the neighbour list |
| `Deduction.FirstUnopenedNeighborIsFirst` | main.py:190-202 | a firing rule acts on the first neighbour, in neighbour order, with code 0 |
| `Deduction.SafeClickMove` | main.py:184-202 | when q is the first cell whose flags equal its number and that has an unopened neighbour, the move is a click on q's first unopened neighbour |
| `Deduction.SafeClickHasPriority` | main.py:184-224 | when strategy 1 applies anywhere the move is a click, on the first unopened neighbour of the first cell where it applies, never a flag |
| `Deduction.CertainMineMove` | main.py:205-224 | when strategy 1 applies nowhere and q is the first cell whose unopened plus flagged neighbours equal its number, the move flags q's first unopened neighbour |
| `Deduction.FlagOnlyFromStrategyTwo` | main.py:205-224 | a flag is placed exactly when strategy 1 applies nowhere and strategy 2 somewhere, and then on the first unopened neighbour of the first cell where strategy 2 applies |
| `Deduction.UnopenedCellsExactly` | main.py:227-231 | the fallback's list holds exactly the code-0 cells of the board, in strictly ascending row-major order |
| `Deduction.MoveTargetsUnopened` | main.py:196-236 | every move, of any strategy, targets an on-board cell with code 0 |
| `Deduction.UnopenedCellsEmpty` | main.py:227-233 | the fallback's list is empty exactly when no cell has code 0 |
| `Deduction.NoMoveIffNoUnopened` | main.py:227-240 | there is no move exactly when no cell has code 0, and when neither deduction applies the move clicks the drawn element of the unopened list |
| `Deduction.MineCountSplit` | main.py:199-200 | on a board consistent with a mine layout, the mines around a cell are its flags plus its unopened mines |
| `Deduction.MineCountAppend` | main.py:199-200 | mine counts add up over concatenated cell lists |
| `Deduction.MineCountExtremes` | main.py:220-222 | a mine count of zero means no cell of the list is a mine; a count equal to the list's length means every cell is |
| `Deduction.DeductionsSound` | main.py:199-222 | on a board consistent with a mine layout, a cell firing strategy 1 points at a non-mine and one firing strategy 2 at a mine |
| `Deduction.DeducedMovesSound` | main.py:184-224 | on a board consistent with a mine layout, every flag the engine places is on a mine, and while strategy 1 applies the click is on a non-mine |
| `GameStatus.CheckGameStatus` | main.py:242-273 | the two passes return lose when some cell is -1, else win when no cell is 0 or 9, else playing |
| `GameStatus.StatusMeaning` | main.py:253-273 | on a board of written codes: win exactly when every cell is an opened number or blank, lose exactly when a mine shows, playing exactly when no mine shows and some cell is unopened or flagged |
| `BoardUpdate.NameOf` | main.py:23-36 | every label has one of the recogniser's names: a template name or "unknown" |
| `BoardUpdate.ParseState` | main.py:143-157 | the update loop's tests on a recogniser name pick the label whose name it is |
| `BoardUpdate.ParseNameOf` | main.py:143-157 | parsing a label's name gives back the label |
| `BoardUpdate.NameOfInjective` | main.py:23-36 | distinct labels have distinct names |
| `BoardUpdate.CodeFor` | main.py:143-157 | a recognised label yields one of the five kinds of code; an unknown label keeps the previous code |
| `BoardUpdate.LabelOf` | main.py:46-50 | a code stands for a label exactly when it is one of the codes the update loop writes |
| `BoardUpdate.LabelRoundTrip` | main.py:143-157 | reading back the code of a recognised label gives the label |
| `BoardUpdate.CodeRoundTrip` | main.py:143-157 | every written code is the code of its own label, whatever the previous code |
| `BoardUpdate.CodeForInjective` | main.py:143-157 | distinct recognised labels are written as distinct codes |
| `BoardUpdate.CodeForIdempotent` | main.py:143-157 | recognising the same label on a second scan changes nothing |
| `BoardUpdate.UpdateKeepsWellCoded` | main.py:143-157 | the update keeps every cell on one of the written codes |
| `BoardUpdate.UpdateBoard` | main.py:136-157 | after the loop every cell holds the code of its label over its previous code, and nothing else changed |
| `BoardUpdate.NewBoard` | main.py:299 | the initial board has the given size and every cell unopened |
| `Screen.CellSlice` | main.py:70-76 | a cell's image slice is cell-size rows by cell-size columns |
| `Screen.DivInverse` | main.py:74-76 | for a cell size of at least 1, a pixel coordinate lies in band k exactly when integer division by the cell size gives k |
| `Screen.SliceContains` | main.py:74-76 | for any cell size of at least 1, a pixel lies in the slice of cell (r, c) exactly when division by the cell size maps it to (r, c), so the slices tile the image |
| `Screen.SliceInsideImage` | main.py:62-76 | on a board of any size, the slice of every cell on the board lies inside the captured board image |
| `Screen.HalfInside` | main.py:106-107 | half the cell size, rounded down as `//` does, is an offset inside the cell, and off its border once the size is at least 3 |
| `Screen.CellCenter` | main.py:102-108 | for any corner and any cell size of at least 1, the click point of a cell with non-negative row and column lies in that cell's square and maps back to the cell; for a size of at least 3 it lies strictly inside, off the border |
| `Screen.CenterInjective` | main.py:102-108 | distinct cells get distinct click points |
| `Screen.CenterOnBoard` | main.py:102-108 | on a board of any size, every click point lies within the captured screen region |
| `Screen.ProgramCentersInside` | main.py:11-18 | with the program's geometry (100, 200, 30) on its 9 x 9 board, the click point of cell (r, c) is (115 + 30c, 215 + 30r), lies in the captured region and maps back to the cell |
| `AutoPlay.DecideRound` | main.py:308-338 | a round reports a finished game, else the engine's move, else that there is no move, as `Decide` states |
| `AutoPlay.StalledExactly` | main.py:308-338 | the loop gives up for lack of a move exactly when no mine shows, no cell is unopened and some cell is flagged |
| `AutoPlay.PerformTargetsUnopened` | main.py:308-331 | a move is made only while the game is being played, and on an on-board cell with code 0 |
| `AutoPlay.UnopenedMeansMove` | main.py:308-331 | while no mine shows and some cell is unopened, the round always makes a move |
| `AutoPlay.Round` | main.py:308-331 | a round decides on the current board; after a move the board takes the new labels' codes, otherwise it is unchanged |

## Left out

- Screen capture (`capture_board_image`, main.py:54-68): foreign I/O. Only
  the size of the captured region enters, through `Screen.SliceInsideImage`.
- Template matching (`recognize_cell_state`, main.py:78-100): OpenCV and a
  floating-point threshold. Its output is modelled by the name it returns
  (`BoardUpdate.IsStateName`), and the update loop takes the label of every
  cell as an input.
- Mouse clicks, right clicks and every `time.sleep` (main.py:110-124, 340):
  actuation and delays. A move is returned as an `Action`, not performed.
- Loading the templates, the directory check and all printing in `main`
  (main.py:23-36, 277-306): I/O and logging.
- The unbounded `while True` of `main` (main.py:308-340): only one round is
  modelled (`AutoPlay.Round`); the screen after a move is an input.
- `np.random.randint` (main.py:236): replaced by the parameter `rand`;
  randomness is not modelled.
- `BoardUpdate.ParseState`: defined only on names the recogniser can
  return; `int(state.split('_')[1])` on any other name starting with `num_`
  is not modelled.
