# Sudoku solver: constraint-propagation grid and backtracking search

This project models the core of a Sudoku solver in Dafny and proves it correct.

- **Base grid (`SudokuBase`).** A 9x9 integer grid with a configurable empty-cell marker. It offers bounds-checked reads and writes and row, column and 3x3-square views.
- **Constraint-propagation grid (`SudokuCP`).** It keeps a candidate set (a *domain*) for each of the 81 cells. A write shrinks the domains of the cell's 21 peers. A clear recomputes those domains from scratch.
- **Solution checks (`SolutionChecks`).** The duplicate checks that decide whether a grid is valid, and whether it is solved.
- **Solver (`BtCp`).** A recursive backtracking search. At each step it fills the empty cell whose domain is smallest.
- **Historical grid (`LegacySudoku`).** Its write, slice and fullness operations, and its row-major cell successor.
- **Reader (`Parser`).** Turns the text of a grid file into a 9x9 grid.

Each numpy grid is an `array2<int>` that the methods update in place. `Board` is the pure 9x9 view of its values. The cell-domain dictionary and the affected-cells cache are `map` fields of the constraint-propagation grid class.

**Central invariant.** `Valid()` states that every stored domain equals `CalculateCellDomain` of the current board. Three members maintain it: the constructor, `SetValue` and `EmptyCell`.

**Solver guarantees.** The search is proved:
- **sound:** success leaves a full, valid completion of the starting grid;
- **complete:** failure means no completion exists, and the grid is left as it was on entry;
- **terminating:** each call is measured by the number of empty cells.

Every value the search tries passes the `NotInDomain` gate.

Files:
- `wrappers.dfy`: `Option`, `Result` and `Outcome`, which stand for None and for raised exceptions.
- `sudoku_base.dfy`: `src/model/sudoku_base.py`.
- `sudoku_cp.dfy`: `src/model/sudoku_cp.py`.
- `solution_checks.dfy`: `src/solvers/utils.py`.
- `bt_cp.dfy`: `src/solvers/bt_cp.py`.
- `legacy_sudoku.dfy`: `src/sudoku.py`.
- `parser.dfy`: the parsing body of `parse_sudoku_file` in `src/main.py`.

Where the code and its docstrings disagree, the model follows the code:
- In base `set_value`, `overwrite=True` refuses a non-empty cell and `overwrite=False` writes unconditionally. The docstring says the opposite.
- `set_value` refuses the empty marker, although its docstring allows it.
- `check_no_sudoku_duplicates` is documented as "each number exactly once". It accepts a unit in which each number from 1 to 9 occurs at most once.
- `is_solution_correct` does not check that a full grid holds only digits. A given such as 42 passes it. The solver's notion of a completion therefore asks for digits only in the cells that were empty.

## Model

| member | source | states |
|---|---|---|
| SudokuBase.SudokuGrid.Create | src/model/sudoku_base.py:29-44 | the marker defaults to -777; fails with NotNineByNine unless the array is 9x9, then with MarkerIsDigit when the marker is in 1..9; otherwise a grid over the same array (not a copy) and marker |
| SudokuBase.SudokuGrid.constructor | src/model/sudoku_base.py:29-44 | a valid grid that keeps the given array and marker |
| SudokuBase.SudokuGrid.GetInnerGridCopy | src/model/sudoku_base.py:50-56 | a fresh 9x9 array holding the same values |
| SudokuBase.SudokuGrid.GetValue | src/model/sudoku_base.py:58-59 | the value the board holds at the cell |
| SudokuBase.SudokuGrid.SetValue | src/model/sudoku_base.py:61-81 | overwrite defaults to false; overwrite=True on a non-empty cell fails with NonEmptyCellWrite; otherwise a value outside 1..9 (the marker included) fails with InvalidValue; success changes exactly the target cell to val; any failure leaves the board unchanged |
| SudokuBase.SudokuGrid.EmptyCell | src/model/sudoku_base.py:83-91 | the cell holds the marker and every other cell is unchanged |
| SudokuBase.SudokuGrid.GetRow | src/model/sudoku_base.py:93-103 | fails iff the index is outside 0..8; otherwise the nine values of that row |
| SudokuBase.SudokuGrid.GetColumn | src/model/sudoku_base.py:105-115 | fails iff the index is outside 0..8; otherwise the nine values of that column |
| SudokuBase.SudokuGrid.GetSquare | src/model/sudoku_base.py:117-131 | the 3x3 block whose top-left is ((row//3)*3, (col//3)*3) |
| SudokuBase.SquareAt | src/model/sudoku_base.py:127-131 | entry (i, j) of a cell's square is the board value at (start row + i, start column + j), and the cell itself sits in it |
| SudokuBase.SameSquareSameBlock | src/model/sudoku_base.py:127-131 | all cells of one square see the same block |
| SudokuBase.FlattenSquare | src/solvers/utils.py:45-47 | the three rows of a square, concatenated, are the square's nine values |
| SudokuBase.SudokuGrid.IsFull | src/model/sudoku_base.py:133-135 | true iff no cell holds the marker (the set of empty cells is empty) |
| SudokuCP.AffectedCells | src/model/sudoku_cp.py:143-161 | the union of row, column and square cells: a cell is in it iff it shares the row, the column or the square (the cell itself included) |
| SudokuCP.AffectedCellsCount | src/model/sudoku_cp.py:143-161 | the affected set has 21 cells, the cell included: 9 in the row, 8 more in the column, 4 more in the square |
| SudokuCP.CalculateCellDomain | src/model/sudoku_cp.py:72-86 | a subset of 1..9; its meaning is given by DomainIsIntersection and InDomainIff |
| SudokuCP.DomainIsIntersection | src/model/sudoku_cp.py:74-86 | the domain is the intersection of 1..9 minus the row's values, minus the square's values, minus the column's values |
| SudokuCP.NotInRowIff | src/model/sudoku_cp.py:76-77 | a value is missing from the row view iff no cell of that row holds it |
| SudokuCP.NotInColumnIff | src/model/sudoku_cp.py:79-80 | a value is missing from the column view iff no cell of that column holds it |
| SudokuCP.NotInSquareIff | src/model/sudoku_cp.py:82-83 | a value is missing from the flattened square iff no cell of that square holds it |
| SudokuCP.InDomainIff | src/model/sudoku_cp.py:72-86 | v is in a cell's domain iff v is in 1..9 and no peer (row, column or square, the cell included) holds v |
| SudokuCP.DomainAfterWrite | src/model/sudoku_cp.py:165-172 | filling an empty cell with v makes every peer's domain its old domain minus v and leaves the other domains as they were |
| SudokuCP.DomainOfNonPeerUnchanged | src/model/sudoku_cp.py:186-190 | a write to a cell leaves the domain of every non-peer unchanged, so recomputing only the affected cells suffices |
| SudokuCP.RemovalKeepsDomainsConsistent | src/model/sudoku_cp.py:112-124 | domains that matched the board, with v removed from the peers of the filled empty cell, match the new board |
| SudokuCP.RecomputationKeepsDomainsConsistent | src/model/sudoku_cp.py:126-136 | domains that matched the board, with the peers of the cleared cell recomputed, match the new board |
| SudokuCP.FillThenClearRestoresDomains | src/model/sudoku_cp.py:103-136 | filling a cell and clearing it back restores every computed domain |
| SudokuCP.FillThenClear | src/model/sudoku_cp.py:103-136 | set_value with its default overwrite=True on an empty cell with a candidate, followed by empty_cell, gives back the grid and every stored domain |
| SudokuCP.ConstraintPropagationSudokuGrid.constructor | src/model/sudoku_cp.py:53-70 | after the nested loops every cell, empty or filled, has the domain computed from the grid, and the cache is empty |
| SudokuCP.ConstraintPropagationSudokuGrid.Create | src/model/sudoku_cp.py:53-57 | the base constructor's two failures, otherwise a valid grid over the given array |
| SudokuCP.ConstraintPropagationSudokuGrid.FromSudokuGrid | src/model/sudoku_cp.py:88-101 | a valid grid over a fresh copy of the source's array, with the same values and marker |
| SudokuCP.ConstraintPropagationSudokuGrid.GetAffectedCells | src/model/sudoku_cp.py:138-163 | the peer set of the cell, the same on a cache hit as when computed afresh; the cache gains that cell's key only |
| SudokuCP.ConstraintPropagationSudokuGrid.RemoveFromAffectedDomains | src/model/sudoku_cp.py:165-184 | every peer's domain loses val, every other domain is unchanged |
| SudokuCP.ConstraintPropagationSudokuGrid.RecalculateAffectedDomains | src/model/sudoku_cp.py:186-190 | every peer's domain is recomputed from the board, every other domain is unchanged |
| SudokuCP.ConstraintPropagationSudokuGrid.SetValue | src/model/sudoku_cp.py:103-124 | overwrite defaults to true, unlike the base write; val outside the cell's current domain fails with NotInDomain and changes neither board nor domains; otherwise it empties the cell when overwrite is false, and the base write's outcome decides; success writes val and, on an empty cell, removes val from exactly the peers' domains; the domain invariant holds after |
| SudokuCP.ConstraintPropagationSudokuGrid.EmptyCell | src/model/sudoku_cp.py:126-136 | the cell holds the marker, other cells are unchanged, no domain changes if it was already empty, non-peer domains never change, and the domain invariant holds after |
| SudokuCP.ConstraintPropagationSudokuGrid.GetDomain | src/model/sudoku_cp.py:192-200 | the stored domain, which equals the domain computed from the board |
| SudokuCP.ConstraintPropagationSudokuGrid.GetMinimumDomainEmptyCell | src/model/sudoku_cp.py:202-226 | None iff no cell is empty; otherwise an empty cell with its domain, no larger than any empty cell's domain and strictly smaller than those of the empty cells before it in row-major order |
| SudokuCP.ConstraintPropagationSudokuGrid.GetMaximumDomainEmptyCell | src/model/sudoku_cp.py:228-252 | the same with the largest domain, the first maximum in row-major order winning |
| BtCp.OneClearedCellOfSolution | src/model/sudoku_cp.py:202-226 | on a valid grid of digits with one cell cleared, that cell is the only empty cell, its domain is the singleton of its old value, and it is the only minimum-domain choice |
| SolutionChecks.InsertSorted | src/solvers/utils.py:80 | inserting into a strictly increasing sequence keeps it strictly increasing and adds exactly the new value |
| SolutionChecks.Unique | src/solvers/utils.py:80 | np.unique: strictly increasing, holding exactly the values of the input |
| SolutionChecks.KeepRepeated | src/solvers/utils.py:81 | the unique values whose count exceeds 1, still increasing |
| SolutionChecks.GetDuplicates | src/solvers/utils.py:72-84 | exactly the values occurring more than once, in increasing order, each paired with its count |
| SolutionChecks.NoDigitRepeatedIffPairwise | src/solvers/utils.py:53-69 | no digit repeats iff no two positions hold the same digit |
| SolutionChecks.CountAboveOneIffTwoPositions | src/solvers/utils.py:80-81 | a value's count exceeds 1 iff it sits at two distinct positions |
| SolutionChecks.NoDigitRepeatedIffCounts | src/solvers/utils.py:62-69 | no digit repeats iff each of 1..9 occurs at most once (not exactly once, as documented) |
| SolutionChecks.CheckNoSudokuDuplicates | src/solvers/utils.py:53-69 | on nine values (the assertion), true iff no number from 1 to 9 repeats; repeated empty markers are allowed |
| SolutionChecks.RowNoRepeatIff | src/solvers/utils.py:35-36 | a row passes iff no two of its cells hold the same digit |
| SolutionChecks.ColumnNoRepeatIff | src/solvers/utils.py:35-37 | a column passes iff no two of its cells hold the same digit |
| SolutionChecks.SquareNoRepeatIff | src/solvers/utils.py:43-47 | a square passes iff no two of its cells hold the same digit |
| SolutionChecks.SquareOfCell | src/solvers/utils.py:43-47 | every cell lies in the square whose top-left is (3i, 3j) for i = row//3, j = col//3 |
| SolutionChecks.GridValidIffNoPeerConflicts | src/solvers/utils.py:23-50 | the 27-unit check passes iff no two distinct peer cells hold the same digit |
| SolutionChecks.RowsAndColumnsValid | src/solvers/utils.py:32-40 | true iff all nine rows and all nine columns pass the duplicate check |
| SolutionChecks.SquaresValid | src/solvers/utils.py:42-50 | true iff the nine squares with top-left (3i, 3j) pass the duplicate check |
| SolutionChecks.IsGridValid | src/solvers/utils.py:23-50 | true iff every row, column and square passes the duplicate check (a grid of empty markers is valid) |
| SolutionChecks.IsSolutionCorrect | src/solvers/utils.py:11-20 | true iff the grid is full and valid |
| BtCp.FullBoardCompletion | src/solvers/bt_cp.py:30-31 | a full board's only possible completion is itself, and only when it is correct |
| BtCp.CompletionValueInDomain | src/solvers/bt_cp.py:33-36 | a completion puts in an empty cell a value of that cell's domain, so an empty domain means no completion |
| BtCp.AttemptPassesGate | src/solvers/bt_cp.py:45-50 | once the target holds an earlier attempt w, every other candidate is still in its domain, so the NotInDomain check of set_value never fires |
| BtCp.CompletionAfterWrite | src/solvers/bt_cp.py:45-58 | placing a completion's value in the target keeps it a completion of the new board |
| BtCp.CompletionBeforeWrite | src/solvers/bt_cp.py:47-61 | a completion found after placing a digit in an empty cell completes the board before the placement |
| BtCp.WriteKeepsNoConflicts | src/solvers/bt_cp.py:45-47 | writing a value of the cell's domain into a grid where no two peers share a digit leaves no two peers sharing a digit |
| BtCp.PlaceAttempt | src/solvers/bt_cp.py:45-47 | set_value with overwrite=False on the target, holding either its entry value or an earlier attempt, passes the domain gate, leaves exactly the attempt written, and keeps a conflict-free grid conflict-free |
| BtCp.ClearAttempt | src/solvers/bt_cp.py:65-66 | empty_cell on the target after the last failed attempt gives back the entry grid with consistent domains |
| BtCp.FillingShrinksEmptyCells | src/solvers/bt_cp.py:47-58 | filling the target takes exactly that cell out of the empty cells, so the recursion is bounded by their number |
| BtCp.SolverAux | src/solvers/bt_cp.py:24-66 | on success the grid is a full, valid completion of the entry grid; on failure the grid has its entry values again and no completion exists; the domain invariant holds throughout; a grid in which no two peers share a digit keeps that property after every attempt (loop invariant) and on return |
| BtCp.BtCpSudokuSolver | src/solvers/bt_cp.py:15-86 | a grid is returned iff the input has a completion, and it is a completion of the input on a fresh copy; the caller's grid is never written |
| LegacySudoku.GetNext | src/sudoku.py:49-67 | for a column in 0..8 the row-major position grows by exactly 1, and the new column is always in 0..8 |
| LegacySudoku.GetNextLeavesGrid | src/sudoku.py:60-67 | (8, 8) is followed by (9, 0), outside the grid; before column 8 only the column advances |
| LegacySudoku.WalkIsRowMajor | src/sudoku.py:49-67 | k steps from (0, 0) reach (k / 9, k % 9) |
| LegacySudoku.LegacyGrid.constructor | src/sudoku.py:13-20 | a grid over the given 9x9 array |
| LegacySudoku.LegacyGrid.Create | src/sudoku.py:13-20 | fails iff the array is not 9x9 (the shape assertion) |
| LegacySudoku.LegacyGrid.SetValue | src/sudoku.py:25-28 | fails unless the value is in 1..9 or -777; numpy indices -9..8 are written (negative ones from the end), others fail; success changes only that cell, failure nothing |
| LegacySudoku.LegacyGrid.GetSquare | src/sudoku.py:36-37 | the block at exactly the given start (no rounding), 3x3 for starts in 0..6 and clamped as numpy slices are elsewhere |
| LegacySudoku.AlignedSliceIsSquare | src/sudoku.py:36-37 | at a start (3i, 3j) the slice is the same block as the base grid's square view |
| LegacySudoku.LegacyGrid.IsFull | src/sudoku.py:39-41 | true iff no cell holds -777 |
| Parser.Cells | src/main.py:96-97 | the non-whitespace characters of the text, in order, none of them whitespace |
| Parser.CellsOfConcat | src/main.py:96-97 | dropping whitespace commutes with concatenation |
| Parser.CellValue | src/main.py:105-109 | '1'..'9' map to their value, every other character (including '0') to -777 |
| Parser.GridOf | src/main.py:99-113 | cell (r, k) is read from character 9r+k, and every entry is a digit or -777, as the base grid accepts |
| Parser.TrailingCellsIgnored | src/main.py:100-104 | characters after the 81st do not change the grid |
| Parser.ParseSudokuText | src/main.py:75-113 | fewer than 81 non-whitespace characters fails at the first missing index; otherwise the grid read from the first 81 |
| Parser.ReadWrittenGrid | src/main.py:75-113 | reading back a grid written one row per line gives the grid, for any grid of digits and -777 |

## Left out

- File I/O, `argparse`, timing and the solver-strategy dispatch of `src/main.py`. The reader is modelled from the file's text, and only for ASCII text: Python's `isnumeric` accepts other Unicode numerals, which `int()` then reads or rejects.
- Logging calls and the text of exception messages. Exceptions become `Failure`/`Fail` values naming the error kind and its data.
- The simulated-annealing solver and grid, the JSON/CSV query runner, and the superseded or unfinished modules (`src/bt_cp_solver.py`, `src/model.py`, `src/bt_solver.py`, `src/constraints.py`).
- `starting_grid=None`. Both constructors read the array's shape before testing for None, so that default raises rather than building an empty grid. The model always takes an array.
- The `KeyError` handler of `_remove_from_affected_domains` (src/model/sudoku_cp.py:178-184) is not modelled. The removal is guarded by a membership test, so the handler cannot run.
- Negative indices on the base and constraint-propagation grids. Cells are `Cell(row, col)` with both parts in 0..8, so numpy's wrap-around for -9..-1 is not modelled there. The historical grid's `set_value` does model it.
- Python's set iteration order in the solver loop and in the domain updates. The model picks an arbitrary remaining element, so the proofs hold for every order.
- Subclassing. `ConstraintPropagationSudokuGrid` holds its base grid in the `grid` field and calls the base operations on it.
- Views. `get_row`, `get_column` and `get_square` return numpy views that share memory with the grid (src/model/sudoku_base.py:103,115,131). The model returns copied values, so writes through a returned view are not modelled. Every caller in the core only reads them.
- SolutionChecks.CheckNoSudokuDuplicates: the assertion on the number of values (src/solvers/utils.py:65) is a precondition of nine values, not an `AssertionError` on other lengths.
- BtCp.SolverAux: the assertion that the target is empty (src/solvers/bt_cp.py:39) is a precondition. It is slightly stronger than the source, which returns False on an empty domain before the assertion runs, so a non-empty target with an empty domain is outside the model.
- Integer width. Grid values are unbounded integers; numpy's int64 cannot overflow at the values a grid holds.
- SudokuCP.CalculateCellDomain: its own contract states only that the domain lies within 1..9. `DomainIsIntersection` and `InDomainIff` state what it is.
