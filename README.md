# Sudoku generator and playing session, in Dafny

This project models `sudoku_generator.py`, the logic of a small pygame Sudoku game.

- `SudokuGenerator` builds a puzzle. It seeds the three diagonal 3x3 boxes with shuffled digits, completes the grid by backtracking (`fill_remaining`), keeps a copy as the answer key, and blanks a number of randomly picked cells.
- `generate_sudoku` is the stand-alone entry point to the same steps.
- `Cell` and `Board` hold the playing session: each cell's value, pencil mark ("sketch"), starting value and highlight; the selected cell; the dealt puzzle; the answer key; and a mirror of the cell values in the generator's board, on which the finished grid is checked.

Files:

- `options.dfy`: module `Options`, the `Option` type standing for Python's `None`.
- `grid.dfy`: module `SudokuGrid`. It holds the grid as a value (`Grid = seq<seq<int>>`, always 9x9) and the Sudoku rules as predicates: `Safe` is what `is_valid` tests, `NoDuplicates` and `Solved` describe complete grids. Its lemmas relate these predicates: placement, re-testing a cleared cell, permutations in rows, columns and boxes, and counting blanks. `CopyGrid` reads a live board into a grid value; it also models the deep copy `[row[:] for row in board]`.
- `generator.dfy`: module `Generator`.
  - The class `SudokuGenerator` keeps the live board as an `array2<int>` that its methods update in place. The scans of `valid_in_col` and `valid_in_box` are loops, and the backtracking writes and undoes cells.
  - `Deal` is the create, fill and blank sequence that `generate_sudoku` and `Board.__init__` share. `GenerateSudoku` returns the generator's own array, the same object that `remove_cells` blanks.
- `session.dfy`: module `Session`.
  - The class `Cell`, and the class `Board` over a 9x9 `seq` of cell objects.
  - `Board.Valid()` is the session invariant: at most one cell is highlighted, the one `selectedCell` names, and every clue still shows its digit.
  - `Board.Values()` is the grid the cells show.

The board size is fixed at 9 with 3x3 boxes, as the game always uses it. No `row_length` parameter is modelled, and `box_length` is the constant 3.

The randomness becomes parameters:
- `fill_box` takes the shuffled list (a permutation of 1..9) that `random.shuffle` would produce.
- `fill_diagonal`, `fill_values`, `generate_sudoku` and `Board.__init__` take the three shuffles.
- `remove_cells` takes the sequence of `(row, col)` draws that `random.randint` would produce.

## Model

| member | source | states |
|---|---|---|
| SudokuGrid.BoxStart | sudoku_generator.py:117 | `row - row % 3` is a multiple of 3 and the box it starts, which fits in the grid, contains `row` |
| SudokuGrid.CopyGrid | sudoku_generator.py:198 | the copy is a 9x9 grid equal cell by cell to the board it was read from |
| SudokuGrid.SafeIffAbsentFromPeers | sudoku_generator.py:114-117 | `is_valid`'s three scans accept `num` at (row, col) exactly when the cell itself and no other cell of its row, column or box holds `num` |
| SudokuGrid.PlacementKeepsNoDuplicates | sudoku_generator.py:177-179 | writing an accepted digit 1..9 into a blank cell of a grid of digits with no repeats gives a grid of digits with no repeats |
| SudokuGrid.ClearedCellTest | sudoku_generator.py:429-433 | after blanking a cell, `is_valid` on its old digit holds exactly when that digit is nonzero and no other cell of its row, column or box repeats it |
| SudokuGrid.DistinctCardinality | sudoku_generator.py:130-131 | a list of distinct values has as many distinct elements as entries |
| SudokuGrid.DigitPermutationHasEveryDigit | sudoku_generator.py:130-131 | a shuffled list of nine distinct digits 1..9 contains every digit 1..9 |
| SudokuGrid.SolvedRowsArePermutations | sudoku_generator.py:195-198 | every row of a solved grid holds each of 1..9 once |
| SudokuGrid.SolvedColumnsArePermutations | sudoku_generator.py:195-198 | every column of a solved grid holds each of 1..9 once |
| SudokuGrid.SolvedBoxesArePermutations | sudoku_generator.py:195-198 | every 3x3 box of a solved grid holds each of 1..9 once |
| SudokuGrid.BoxCellsDiffer | sudoku_generator.py:195-198 | two different positions of a box of a solved grid hold different digits |
| SudokuGrid.RemovalAddsBlanks | sudoku_generator.py:214-221 | zeroing a set of nonzero cells adds exactly those cells to the blanks, so the blank count grows by the size of the set, which is at most the number of nonzero cells |
| Generator.NextCell | sudoku_generator.py:160-176 | after the row wrap and the band skips, a cell outside the diagonal boxes is the first such cell at or after position row*9+col, and `Done` means none is left |
| Generator.PlacementStep | sudoku_generator.py:177-181 | placing an accepted digit keeps the grid free of repeats and leaves every later pending cell blank, as the recursive call needs |
| Generator.CompletedStep | sudoku_generator.py:180-181 | once the recursive call has filled every pending cell after (r, c), every pending cell from (r, c) on is filled and no other cell has moved |
| Generator.RejectedDigitExcluded | sudoku_generator.py:178 | a digit `is_valid` rejects at a blank pending cell is in no completion of the board: its clashing peer is kept by every completion |
| Generator.PlacedCompletion | sudoku_generator.py:179-180 | a completion that holds the placed digit at (r, c) completes the placed board from the next position, so the recursive call's failure rules that digit out |
| Generator.NextCompletion | sudoku_generator.py:160-176 | the cells still to fill from (row, col) on are exactly those from the cell `NextCell` visits on, so completions from either position coincide |
| Generator.RejectedStep | sudoku_generator.py:177-178 | after a rejected digit, no completion holds a digit up to and including it at (r, c) |
| Generator.FailedStep | sudoku_generator.py:179-182 | after a digit whose recursive call failed, no completion holds a digit up to and including it at (r, c) |
| Generator.NoDigitLeft | sudoku_generator.py:177-184 | once all of 1..9 are ruled out at (r, c), the board has no completion from (r, c) |
| Generator.SeededSolutionIsCompletion | sudoku_generator.py:195-197 | every solved grid that extends the seeded diagonal boxes is a completion of the seeded board from (0, 0) |
| Generator.SudokuGenerator.constructor | sudoku_generator.py:25-30 | a fresh all-zero 9x9 board, the requested number of removals and no solution yet |
| Generator.SudokuGenerator.ValidInRow | sudoku_generator.py:65-66 | true exactly when `num` is absent from the row |
| Generator.SudokuGenerator.ValidInCol | sudoku_generator.py:78-82 | true exactly when `num` is absent from the column; the board is not modified |
| Generator.SudokuGenerator.ValidInBox | sudoku_generator.py:96-101 | true exactly when `num` is absent from the 3x3 box at (rowStart, colStart); the board is not modified |
| Generator.SudokuGenerator.IsValid | sudoku_generator.py:114-117 | true exactly when `num` is absent from the row, the column and the box at (row - row % 3, col - col % 3); the board is not modified |
| Generator.SudokuGenerator.FillBox | sudoku_generator.py:129-134 | the nine box cells receive the shuffled digits popped from the end of the list, row by row; no other cell changes |
| Generator.SudokuGenerator.FillDiagonal | sudoku_generator.py:143-145 | the boxes at (0,0), (3,3) and (6,6) receive shuffles 0, 1 and 2; no other cell changes |
| Generator.DiagonalSeed | sudoku_generator.py:129-134 | the digit `fill_box` leaves at a diagonal cell, taken from its box's shuffle, is one of 1..9 |
| Generator.DiagonalSeedingIsConsistent | sudoku_generator.py:143-145 | a blank board seeded in the three diagonal boxes holds only digits, has no repeats, and its diagonal cells are nonzero |
| Generator.SudokuGenerator.FillRemaining | sudoku_generator.py:159-176 | from a position the traversal reaches, over a board with no repeats whose pending cells from there on are blank: the result still has no repeats and cells outside that part are untouched; on True every pending cell from there on is filled; on False the board is as on entry and no completion of it from that position exists (the failure is genuine); the position row*9+col strictly grows along the recursion |
| Generator.SudokuGenerator.TryDigits | sudoku_generator.py:177-184 | the digit loop at one pending cell, with the same guarantees as FillRemaining from that cell: True only with every pending cell from there on filled, False only when no completion exists |
| Generator.SudokuGenerator.TryDigit | sudoku_generator.py:178-182 | one round of the loop for `num`: True with the part from (r, c) filled without repeats, or False with the board restored and every digit up to `num` ruled out of any completion |
| Generator.SudokuGenerator.FillValues | sudoku_generator.py:195-199 | the diagonal boxes hold the seeds; if backtracking succeeds the board is a solved Sudoku; if it fails every other cell is 0 and no solved grid extends the seeded diagonal; the stored solution is a copy of the board |
| Generator.SudokuGenerator.RemoveCells | sudoku_generator.py:214-221 | only cells that were nonzero are zeroed, one per successful draw, until the count is met; every zeroed cell is one of the draws; no cell is zeroed twice; the count met never exceeds the number of nonzero cells; if the draws run out first, every drawn cell is 0; the solution is untouched |
| Generator.Deal | sudoku_generator.py:315-319 | a fresh generator asked for `removed` blanks, filled and blanked: each cell is 0 or the key's digit; the key is the stored solution and is solved when the fill succeeded; when the fill failed no solved grid extends the seeded diagonal; with a successful fill and sufficient draws exactly `removed` cells are blank |
| Generator.GenerateSudoku | sudoku_generator.py:238-243 | the returned board is the generator's own board after blanking: each cell is 0 or the solution's digit; the solution is solved whenever the fill succeeded, and when it failed no solved grid extends the seeded diagonal; if the fill succeeded and the draws sufficed, exactly `removed` cells are blank |
| Session.Cell.constructor | sudoku_generator.py:249-260 | value and original value are the given value, no sketch, not selected |
| Session.Cell.SetCellValue | sudoku_generator.py:262-263 | sets the value and nothing else |
| Session.Cell.SetSketchedValue | sudoku_generator.py:265-266 | sets the sketch and nothing else |
| Session.MakeCells | sudoku_generator.py:320-323 | nine rows of nine fresh cells, the cell at (i, j) with row i, column j, the square's value as value and original value, no sketch and no highlight; the returned set is exactly these cells |
| Session.RemovedCells | sudoku_generator.py:305-312 | medium asks for 40 blanks, hard for 50, and easy or any other string for 30 |
| Session.Board.constructor | sudoku_generator.py:296-327 | the generator is asked for one blank more than the difficulty's count. Each cell starts with its square's value as value and original value, with no sketch. The mirror holds the dealt puzzle. Every clue equals the solution's digit, nothing is selected, and the game is not solved. When the fill succeeded and the draws sufficed, the puzzle has exactly count + 1 blanks. When the fill failed, no solved grid extends the seeded diagonal |
| Session.Board.Select | sudoku_generator.py:367-371 | exactly the cell at (row, col) is highlighted and is the selected cell; no value or sketch changes |
| Session.Board.Click | sudoku_generator.py:373-378 | a position is returned exactly when 0 <= x <= width and 0 <= y <= height; it is the band of cell-sized pixels containing (x, y); it names a cell of the grid exactly when x < 9*(width/9) and y < 9*(height/9), so x == width yields column 9 or beyond |
| Session.Band | sudoku_generator.py:376-377 | pixel p lies in band p / w, and that band is below 9 exactly when p < 9*w |
| Session.Board.Clear | sudoku_generator.py:380-384 | when the selected cell is not a clue, its value and sketch become 0; nothing else changes, and no clue changes |
| Session.Board.Sketch | sudoku_generator.py:386-388 | only the selected cell, and only when its value is 0, gets the sketch; values never change |
| Session.Board.PlaceNumber | sudoku_generator.py:390-393 | when the selected cell is not a clue, its value becomes `value` and the mirror is refreshed to the cell values; otherwise nothing changes; no clue changes |
| Session.Board.ResetToOriginal | sudoku_generator.py:399-404 | the cell values become the dealt puzzle; sketches of exactly the non-clue cells become 0, and clue sketches are kept |
| Session.Board.IsFull | sudoku_generator.py:406-411 | true exactly when no cell value is 0 |
| Session.Board.UpdateBoard | sudoku_generator.py:413-416 | the mirror holds every cell value |
| Session.Board.FindEmpty | sudoku_generator.py:419-424 | `None` exactly when the grid is full; otherwise the first blank cell in row-major order |
| Session.AllPassIffComplete | sudoku_generator.py:426-435 | every cell passing the blank-and-retest test is the same as the grid being full with no repeats |
| Session.Board.CheckBoard | sudoku_generator.py:426-435 | true exactly when the grid is full and repeats no digit in any row, column or box; on true the mirror holds the cell values; on false, the first failing cell in row-major order is left at 0 in the mirror and every other mirror cell holds its value |
| Session.OwnDigitNeverAccepted | sudoku_generator.py:440-442 | testing each cell's digit while the cell still holds it fails at (0, 0) on every grid |
| Session.Board.CheckVictory | sudoku_generator.py:437-445 | as written: true exactly when every cell's own digit passes `is_valid` unblanked, which by OwnDigitNeverAccepted never happens; `solved` is set only on true; the mirror holds the cell values |
| Session.Board.CheckVictoryIntended | sudoku_generator.py:437-445 | corrected: true exactly when the grid is full and repeats no digit, and then `solved` is set; the mirror is left as `check_board` leaves it |
| Session.Board.Solve | sudoku_generator.py:447-453 | every value is the solution's digit, every sketch is 0, the mirror holds the solution, and `solved` is set. The new state depends on nothing but the solution, so a second call changes nothing. When the fill succeeded the shown grid is a solved Sudoku |
| Session.Moved | sudoku_generator.py:455-465 | one step up, down, left or right, clamped at the grid edges; any other direction stays put; the result is always a cell of the grid |
| Session.Board.MoveSelection | sudoku_generator.py:455-465 | with no selection nothing changes; otherwise the selected cell becomes the cell `Moved` names, and no value or sketch changes |

Every Board method keeps `Board.Valid()`. In particular no operation changes a clue's value. Together with `Board.constructor` this is the clue-immutability guarantee.

## Left out

- Drawing: `Cell.draw` and `Board.draw`, and the screen, font, colour and line-colour fields. These are pygame calls.
- `sudoku.py`: the event loop, buttons, end screens and key dispatch. It is user-interface glue over pygame.
- Printing: `print_board` and the debug prints in `fill_values` and `Board.__init__`. `FillValues` returns the flag the source prints.
- `math.sqrt` and sizes other than 9. The size is fixed at 9 and the box length at 3, as the game always uses them.
- Randomness. Shuffles and cell draws are parameters; distributions and uniformity are not modelled.
- `get_board` and `get_solution`. They are plain field reads (`board`, `solutionBoard`).
- Generator.SudokuGenerator.RemoveCells: the source draws without limit until the count is met. Here the draws are a finite list, and the result is the count still owed when the list runs out. The source terminates only if `removed_cells` is at most the number of nonzero cells; the model shows the count met never exceeds it.
- Generator.SudokuGenerator.FillRemaining: the model accepts only positions the traversal from (0, 0) reaches (`Entry`). From other positions the source overwrites diagonal cells, or indexes column 9 at (8, 9).
- Generator.SudokuGenerator.FillRemaining: the model proves that a False answer is genuine (no completion exists), but not that every seeded diagonal has a completion, so it does not show that `fill_values` always succeeds.
- Generator.SudokuGenerator.TryDigits: the source's `fill_remaining` is one function; the model does its work in three methods. `FillRemaining` does the position arithmetic, `TryDigits` runs the digit loop, and `TryDigit` is one round of it.
- Session.Board.Select requires a cell of the grid. For other indices the source raises `IndexError`, or wraps negative indices.
- Session.Board.Click requires width and height of at least 9 whenever the point is on the board. Otherwise the source divides by zero.
- Session.Board.CheckBoard, CheckVictory and CheckVictoryIntended state their results about the cell values on entry (`old(Values())`). Their frames exclude the cells, so these are also the values on exit.

## Findings

| source | as written | input that shows it | evidently intended | confidence | as-written member | corrected member |
|---|---|---|---|---|---|---|
| sudoku_generator.py:440-442 | `check_victory` calls `is_valid(i, j, num)` while cell (i, j) still holds `num`, so the row scan always finds it | any board: at (0, 0) the digit is in its own row, so the method returns False and never sets `solved` | blank the cell before testing, as `check_board` does, and report a win exactly for a full grid without repeats | not executed | Session.Board.CheckVictory, Session.OwnDigitNeverAccepted | Session.Board.CheckVictoryIntended |
