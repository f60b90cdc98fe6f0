# Backtracking Sudoku solver, modelled in Dafny

This project models the solver script `sudoku-solver.py` of a small Python
repository that solves 9x9 Sudoku puzzles by depth-first backtracking. The
puzzle is a 9x9 integer grid, with 0 for a blank cell and 1..9 for a placed
digit. The model keeps the script's structure, one Dafny member per Python
function:

- `locateSquareHelper` is `BoxOrigin`. It maps a row or column index to the
  first index of its 3x3 box.
- `getRowUnit`, `getColumnUnit` and `getSquareUnit` are loop methods. Each
  appends the 9 values of a row, a column or a box to a sequence.
- `findBlankCell` is `FindBlankCell`. It is a nested row-major scan. The
  Python out-parameter `blank_cell` is modelled as an input cell plus a
  returned cell.
- `validateMove` is `ValidateMove`, a pure function on the grid's value.
- `run_algorithm` is `RunAlgorithm`. It is recursive on a 9x9 `array2<int>`.
  It writes each tried digit into the array and resets the cell to 0 when the
  recursion fails.
- `sudoku_solver` is `SudokuSolve`. On failure it overwrites the 0 cells of
  the same array with -1.

Files:

- `grid.dfy` (module `Grid`): the value view of a grid (`Board`, a sequence
  of 9 rows) and `View`, which reads the array into a board. It defines the
  rules of Sudoku on pairs of cells (`Clash`, `Consistent`). It also defines
  what a solution of a puzzle is: `Fills` says a board keeps every clue and
  puts a digit 1..9 in every blank. `Solvable` says some filling obeys the
  rules.
- `sudoku_solver.dfy` (module `SudokuSolver`): the script's functions and the
  lemmas about them. `Search` and `TryDigits` describe on values what the
  search computes. They fix the blank chosen (row-major) and the digit order
  (1..9). `RunAlgorithm` is proved to end with exactly the grid that `Search`
  gives. Soundness and completeness are then proved once, about `Search`.

Termination of the search is proved with the set of blank cells as the
measure. Each recursive call is made after a digit is written into a blank.

## Model

| member | source | states |
|---|---|---|
| `SudokuSolver.BoxOrigin` | sudoku-solver.py:69-86 | The result is 0, 3 or 6. For an index 0..8 it is the box start r with r <= x < r + 3. |
| `SudokuSolver.BoxOriginIsFloor` | sudoku-solver.py:79-86 | For 0..8 the box start is the index rounded down to a multiple of 3. |
| `SudokuSolver.SameOriginIffSameThird` | sudoku-solver.py:79-86 | Two indices have the same box start exactly when they are in the same third of the grid. |
| `SudokuSolver.GetRowUnit` | sudoku-solver.py:111-126 | Returns the 9 values of row i in column order. The grid is only read. |
| `SudokuSolver.GetColumnUnit` | sudoku-solver.py:129-144 | Returns the 9 values of column j in row order. The grid is only read. |
| `SudokuSolver.GetSquareUnit` | sudoku-solver.py:89-108 | Returns the 9 values of the box of (i, j), row by row from the box start. |
| `SudokuSolver.SquareMembers` | sudoku-solver.py:101-108 | A value is among the box values exactly when some cell of that box holds it. |
| `SudokuSolver.FindBlankCell` | sudoku-solver.py:147-165 | Reports true iff some cell is 0. The cell it gives is then the first 0 in row-major order. On false the incoming cell comes back unchanged. The grid is only read. |
| `SudokuSolver.FirstBlank` | sudoku-solver.py:159-165 | The first blank in row-major order: None iff no cell is 0, otherwise a 0 cell with no 0 before it. |
| `SudokuSolver.ValidateMove` | sudoku-solver.py:183-186 | True iff num is in no cell of row i, column j or the box of (i, j), counting the cell itself. |
| `SudokuSolver.ValidateMoveOnGrid` | sudoku-solver.py:168-186 | Gathers the row, column and box of (i, j) from the array with the three collectors. Returns true iff no cell sharing a row, column or box with (i, j) holds num, which is `ValidateMove` of the array's contents. The grid is only read. |
| `SudokuSolver.UnitsLegalIffConsistent` | sudoku-solver.py:180-183 | "No row, column or box repeats a non-blank value" is equivalent to "no two cells sharing a row, column or box hold the same non-blank value". |
| `SudokuSolver.RejectedMoveHasNoSolution` | sudoku-solver.py:209-210 | A digit that the legality test rejects at a blank cannot stand there in any rule-abiding filling. |
| `SudokuSolver.CompleteConsistentHasEachDigitOnce` | sudoku-solver.py:180-186 | A grid filled with digits 1..9 that obeys the rules has every digit 1..9 in every row, column and box, and no value twice in any of them. |
| `SudokuSolver.AcceptedMoveKeepsConsistent` | sudoku-solver.py:209-211 | Writing an accepted digit into a blank keeps a rule-abiding grid rule-abiding. |
| `Grid.Place` | sudoku-solver.py:211 | The write of one cell, used for both the digit written at :211 and the reset to 0 at :216. The result is a 9x9 board holding v at (i, j) and the old value in every other cell. |
| `Grid.PlaceShrinksBlanks` | sudoku-solver.py:211-213 | Writing a digit into a blank removes exactly that cell from the blanks. This is the termination measure of the recursion. |
| `Grid.FillsAfterPlace` | sudoku-solver.py:211-214 | A filling of the grid with the digit written is exactly a filling of the earlier grid that puts that digit there. |
| `Grid.UndoPlace` | sudoku-solver.py:216 | Resetting the tried cell to its old value 0 gives back the grid as it was before the write. |
| `Grid.FullBoardFillsItself` | sudoku-solver.py:203-204 | A grid without blanks has no blank cells and is its own only filling. |
| `SudokuSolver.SearchOfFullGrid` | sudoku-solver.py:201-204 | With no 0 cell the search succeeds at once with the grid unchanged. |
| `SudokuSolver.SearchAcceptsFullClashingGrid` | sudoku-solver.py:201-204 | A full grid whose clues clash has no solution, yet the search reports it solved, unchanged. |
| `SudokuSolver.Search` | sudoku-solver.py:189-217 | The depth-first search as a value. With no blank it returns the grid unchanged. Otherwise it runs the digit loop at the first blank in row-major order. A grid it returns keeps every non-zero cell of the input and has a digit 1..9 in every cell that held 0. |
| `SudokuSolver.TryDigits` | sudoku-solver.py:209-217 | The digit loop at blank (i, j) from num on: digits in ascending order, the result of the first accepted digit whose recursive search succeeds, None when all digits up to 9 fail. A grid it returns fills the input and holds a digit num or above at (i, j). |
| `SudokuSolver.TryDigitsStep` | sudoku-solver.py:209-216 | Proof helper for the loop invariant of `RunAlgorithm`: one unfolding of `TryDigits`. An accepted digit whose recursion succeeds ends the loop with that result; any other digit passes on to the next one. |
| `SudokuSolver.TryDigitsSound` | sudoku-solver.py:209-214 | A result of the digit loop obeys the rules if the grid it started from did. |
| `SudokuSolver.SearchSound` | sudoku-solver.py:189-217 | A search result obeys the rules if the input did. Together with the contract of `Search`, a result has no 0, keeps every non-zero cell of the input and fills the blanks with 1..9. |
| `SudokuSolver.TryDigitsComplete` | sudoku-solver.py:209-217 | When the digit loop from num on gives up, no rule-abiding filling puts a digit num or above at the cell. |
| `SudokuSolver.SearchComplete` | sudoku-solver.py:199-217 | When the search gives up, no filling of the input's 0 cells with digits 1..9 obeys the rules. This needs no assumption on the clues. |
| `SudokuSolver.ClashingCluesAreUnsolvable` | sudoku-solver.py:183-184 | A grid with two clashing clues has no rule-abiding filling. |
| `SudokuSolver.SearchDecides` | sudoku-solver.py:196-199 | On a rule-abiding input the search succeeds exactly when a solution exists. |
| `SudokuSolver.RunAlgorithm` | sudoku-solver.py:189-217 | Returns true exactly when the search succeeds, and then the grid is the search result. On false the grid equals its entry state cell for cell. With no 0 cell it returns true and changes nothing. On true no cell is 0 and every clue is kept, and the grid obeys the rules if the input did. On false no filling obeys the rules. |
| `SudokuSolver.MarkUnsolved` | sudoku-solver.py:19-22 | The sentinel grid has no 0 and keeps every non-zero cell. A cell is -1 exactly when it was 0 or already -1. |
| `SudokuSolver.SentinelMarksExactlyTheBlanks` | sudoku-solver.py:19-22 | For input values 0..9, -1 stands exactly where the input had 0. |
| `SudokuSolver.SudokuSolve` | sudoku-solver.py:4-23 | Returns the caller's array. If the search succeeds, the array holds the search result: a filling of the input, rule-abiding when the input was. Otherwise no filling obeys the rules, and the array is the input with -1 in every blank. For a rule-abiding, solvable puzzle with values 0..9, the result is a complete solution that extends the input. |

Because `SudokuSolve` ends with a function of its input (`Search` or
`MarkUnsolved`), repeated solves of one input give the same output.

## Where the docstrings and the code differ

- The docstring of `run_algorithm` says that the puzzle is solved and true
  is returned if there is a solution (sudoku-solver.py:196-197). The code
  never checks the clues it is given. A full grid is reported solved
  whatever its clues (sudoku-solver.py:203-204;
  `SearchAcceptsFullClashingGrid`). More generally, any grid whose blanks
  can be filled without a new clash is reported solved. The model follows
  the code: a true result obeys the rules only when the input did
  (`SearchSound`, `RunAlgorithm`, `SudokuSolve`).
- The docstring of `sudoku_solver` says that on failure all entries become
  -1 (sudoku-solver.py:14). The code overwrites only the cells that hold 0
  (sudoku-solver.py:21-22), and the model follows the code.

## Left out

- `test_solver` and `test_waters` (sudoku-solver.py:26-66): file loading with
  numpy, printing and comparison against stored solutions. They hold no
  solver logic.
- The numpy array type (sudoku-solver.py:1) is modelled as a plain
  `array2<int>` of size 9x9. Every member requires that size.
- Negative indices: Python would wrap them around. Every caller in the script
  passes 0..8, so the getters and the legality test require cells in 0..8.
- The legality test inside the search: `RunAlgorithm` calls the function `ValidateMove` on the
  grid's value (`View`) rather than the method `ValidateMoveOnGrid`, which
  reads the array through the three getters as the Python version does.
  The two are proved to give the same answer, so the search's outcome is
  the same; what is not modelled is the order of the individual array reads
  inside each legality test.
- The running time of the search and its recursion depth are not modelled.
  Only termination is proved.
- Integer width: cells are unbounded `int`, assuming a signed integer
  element type for the numpy array. The failure path writes -1
  (sudoku-solver.py:22), which an unsigned element type could not hold.
