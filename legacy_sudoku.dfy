/**
 * The historical grid: a 9x9 array whose empty cells hold -777, written in
 * place, with square views taken at any starting row and column, and the
 * row-major cell successor.
 */
module LegacySudoku {
  import opened Wrappers
  import opened SudokuBase

  /** The fixed empty-cell value of the historical grid. */
  const EmptyCellValue: int := -777

  /** A value the historical grid accepts: a digit or the empty-cell value. */
  predicate IsAcceptedValue(v: int) {
    IsDigit(v) || v == EmptyCellValue
  }

  /** A cell of the historical grid; nothing bounds its coordinates. */
  datatype SudokuCell = SudokuCell(row: int, col: int)

  /** Row-major position: 9 per row plus the column. */
  function Position(c: SudokuCell): int {
    9 * c.row + c.col
  }

  /**
   * `get_next`: the right neighbour, wrapping to column 0 of the next row
   * after column 8. Nothing stops it at the last cell.
   */
  function GetNext(c: SudokuCell): (n: SudokuCell)
    ensures 0 <= c.col < 9 ==> Position(n) == Position(c) + 1 && 0 <= n.col < 9
    ensures 0 <= n.col < 9
  {
    var nextCol := (c.col + 1) % 9;
    var isNextRow := c.col + 1 == 9;
    var nextRow := if isNextRow then c.row + 1 else c.row;
    SudokuCell(nextRow, nextCol)
  }

  /** The last cell's successor lies outside the grid. */
  lemma GetNextLeavesGrid()
    ensures GetNext(SudokuCell(8, 8)) == SudokuCell(9, 0)
    ensures forall c: SudokuCell :: 0 <= c.col < 8 ==> GetNext(c) == SudokuCell(c.row, c.col + 1)
  {
  }

  /** The cell reached from `c` after `k` calls to `get_next`. */
  function Advance(c: SudokuCell, k: nat): SudokuCell {
    if k == 0 then c else GetNext(Advance(c, k - 1))
  }

  /** Walking from (0, 0) visits the cells in row-major order: step `k` is (k / 9, k % 9). */
  lemma {:induction false} WalkIsRowMajor(k: nat)
    ensures Advance(SudokuCell(0, 0), k) == SudokuCell(k / 9, k % 9)
  {
    if k > 0 {
      WalkIsRowMajor(k - 1);
      var prev := SudokuCell((k - 1) / 9, (k - 1) % 9);
      var n := GetNext(prev);
      assert Position(n) == k;
      assert n.row == k / 9 && n.col == k % 9;
    }
  }

  /**
   * Python's clamping of one bound of a slice on an axis of length 9: a
   * negative bound counts from the end, and the result is cut to 0..9.
   */
  function SliceBound(i: int): (r: int)
    ensures 0 <= r <= 9
    ensures 0 <= i <= 9 ==> r == i
  {
    if i < 0 then (if i + 9 < 0 then 0 else i + 9)
    else if i > 9 then 9
    else i
  }

  /** The first index of the slice `start:start+3`. */
  function SliceLow(start: int): int {
    SliceBound(start)
  }

  /** How many indices the slice `start:start+3` selects (none when the clamped bounds cross). */
  function SliceLength(start: int): (n: int)
    ensures 0 <= n <= 3 && SliceLow(start) + n <= 9
    ensures 0 <= start <= 6 ==> n == 3
  {
    var lo, hi := SliceBound(start), SliceBound(start + 3);
    if hi < lo then 0 else hi - lo
  }

  /** The historical `SudokuGrid`; the constructor keeps the array it is given. */
  class LegacyGrid {
    const grid: array2<int>

    predicate Valid() {
      grid.Length0 == 9 && grid.Length1 == 9
    }

    constructor (startingGrid: array2<int>)
      requires startingGrid.Length0 == 9 && startingGrid.Length1 == 9
      ensures Valid() && grid == startingGrid
    {
      grid := startingGrid;
    }

    /** `__init__`: the shape assertion, as a failure. */
    static method Create(startingGrid: array2<int>) returns (r: Result<LegacyGrid, Error>)
      ensures r.Failure? <==> !(startingGrid.Length0 == 9 && startingGrid.Length1 == 9)
      ensures r.Failure? ==> r.error == NotNineByNine
      ensures r.Success? ==> fresh(r.value) && r.value.Valid() && r.value.grid == startingGrid
    {
      if !(startingGrid.Length0 == 9 && startingGrid.Length1 == 9) {
        return Failure(NotNineByNine);
      }
      var g := new LegacyGrid(startingGrid);
      r := Success(g);
    }

    function Board(): Board
      reads grid
      requires Valid()
    {
      BoardOf(grid)
    }

    /**
     * `set_value`: refuses any value other than 1..9 and -777, then writes
     * through numpy indexing, where -9..-1 count from the end and anything
     * else outside 0..8 is out of range.
     */
    method SetValue(cell: SudokuCell, val: int) returns (out: Outcome<Error>)
      requires Valid()
      modifies grid
      ensures !IsAcceptedValue(val) ==> out == Fail(InvalidValue(val))
      ensures IsAcceptedValue(val) && !(-9 <= cell.row < 9) ==> out == Fail(IndexOutOfRange(cell.row))
      ensures IsAcceptedValue(val) && -9 <= cell.row < 9 && !(-9 <= cell.col < 9) ==>
                out == Fail(IndexOutOfRange(cell.col))
      ensures out.Pass? <==> IsAcceptedValue(val) && -9 <= cell.row < 9 && -9 <= cell.col < 9
      ensures out.Pass? ==> Board() == SetCell(old(Board()), Cell(cell.row % 9, cell.col % 9), val)
      ensures out.Fail? ==> Board() == old(Board())
    {
      if !(val in [1, 2, 3, 4, 5, 6, 7, 8, 9, EmptyCellValue]) {
        return Fail(InvalidValue(val));
      }
      if !(-9 <= cell.row < 9) {
        return Fail(IndexOutOfRange(cell.row));
      }
      if !(-9 <= cell.col < 9) {
        return Fail(IndexOutOfRange(cell.col));
      }
      var target := Cell(cell.row % 9, cell.col % 9);
      grid[target.row, target.col] := val;
      BoardExtensionality(Board(), SetCell(old(Board()), target, val));
      out := Pass;
    }

    /**
     * `get_square`: the slice `[startingRow:startingRow+3, startingCol:startingCol+3]`,
     * with no rounding to a square boundary; near or past the edge numpy
     * clamps the slice, so the block may be smaller or empty.
     */
    function GetSquare(startingRow: int, startingCol: int): (sq: seq<seq<int>>)
      reads grid
      requires Valid()
      ensures |sq| == SliceLength(startingRow)
      ensures forall i :: 0 <= i < |sq| ==> |sq[i]| == SliceLength(startingCol)
      ensures forall i, j :: 0 <= i < SliceLength(startingRow) && 0 <= j < SliceLength(startingCol) ==>
                sq[i][j] == grid[SliceLow(startingRow) + i, SliceLow(startingCol) + j]
      ensures 0 <= startingRow <= 6 && 0 <= startingCol <= 6 ==>
                |sq| == 3 && forall i, j :: 0 <= i < 3 && 0 <= j < 3 ==>
                  |sq[i]| == 3 && sq[i][j] == grid[startingRow + i, startingCol + j]
    {
      var r0, c0 := SliceLow(startingRow), SliceLow(startingCol);
      var rows, cols := SliceLength(startingRow), SliceLength(startingCol);
      seq(rows, i requires 0 <= i < rows reads grid =>
        seq(cols, j requires 0 <= j < cols reads grid => grid[r0 + i, c0 + j]))
    }

    /** `is_full`: no cell holds -777. */
    function IsFull(): (full: bool)
      reads grid
      requires Valid()
      ensures full <==> BoardFull(Board(), EmptyCellValue)
      ensures full <==> EmptyCells(Board(), EmptyCellValue) == {}
    {
      NoMarkerIsFull(grid, EmptyCellValue);
      forall r, k | 0 <= r < 9 && 0 <= k < 9 :: grid[r, k] != EmptyCellValue
    }
  }

  /**
   * At a square boundary the historical slice and the base grid's square
   * view select the same block.
   */
  lemma {:induction false} AlignedSliceIsSquare(g: LegacyGrid, i: int, j: int)
    requires g.Valid() && 0 <= i < 3 && 0 <= j < 3
    ensures g.GetSquare(3 * i, 3 * j) == Square(g.Board(), Cell(3 * i, 3 * j))
  {
    var sq := g.GetSquare(3 * i, 3 * j);
    var c := Cell(3 * i, 3 * j);
    SquareAt(g.Board(), c);
    forall k | 0 <= k < 3 ensures sq[k] == Square(g.Board(), c)[k] {
      forall l | 0 <= l < 3 ensures sq[k][l] == Square(g.Board(), c)[k][l] {
        assert sq[k][l] == g.grid[3 * i + k, 3 * j + l];
      }
    }
  }
}
