/**
 * The 9x9 grid: cell coordinates, the pure view of a grid's values (`Board`),
 * its row, column and 3x3-square views, and the mutable `SudokuGrid` whose
 * numpy array becomes an `array2<int>`.
 */
module SudokuBase {
  import opened Wrappers

  /** A row or column index; the grid is always 9x9. */
  type Index = i: int | 0 <= i <= 8

  /** CellCoordinates: an immutable (row, col) pair, equal iff both parts are. */
  datatype Cell = Cell(row: Index, col: Index)

  /** The values of a 9x9 grid, row by row. */
  type Board = b: seq<seq<int>> | |b| == 9 && forall r :: 0 <= r < 9 ==> |b[r]| == 9
    witness seq(9, _ => seq(9, _ => 0))

  /** Every failure the grids can raise (Python's ValueError and NotInDomainException). */
  datatype Error =
    | NotNineByNine
    | MarkerIsDigit
    | NonEmptyCellWrite(cell: Cell)
    | InvalidValue(value: int)
    | IndexOutOfRange(index: int)
    | NotInDomain(cell: Cell, domain: set<int>, value: int)

  /** A Sudoku number: an integer from 1 to 9. */
  predicate IsDigit(v: int) { 1 <= v <= 9 }

  const Digits: set<int> := {1, 2, 3, 4, 5, 6, 7, 8, 9}

  /** The empty-cell marker a grid gets when none is given. */
  const DefaultEmptyCellMarker: int := -777

  lemma DigitsAreDigits(v: int)
    ensures v in Digits <==> IsDigit(v)
  {
  }

  function Value(b: Board, p: Cell): int { b[p.row][p.col] }

  /** Two boards with the same value in every cell are the same board. */
  lemma BoardExtensionality(a: Board, b: Board)
    requires forall p :: Value(a, p) == Value(b, p)
    ensures a == b
  {
    forall r | 0 <= r < 9 ensures a[r] == b[r] {
      forall k | 0 <= k < 9 ensures a[r][k] == b[r][k] {
        assert Value(a, Cell(r, k)) == Value(b, Cell(r, k));
      }
    }
  }

  /** The board with cell `p` set to `v` and every other cell as it was. */
  function SetCell(b: Board, p: Cell, v: int): (r: Board)
    ensures forall q :: Value(r, q) == if q == p then v else Value(b, q)
  {
    b[p.row := b[p.row][p.col := v]]
  }

  /** Writing the value a cell already holds changes nothing. */
  lemma SetCellSame(b: Board, p: Cell)
    ensures SetCell(b, p, Value(b, p)) == b
  {
    BoardExtensionality(SetCell(b, p, Value(b, p)), b);
  }

  /** Of two writes to one cell, only the last one shows. */
  lemma SetCellTwice(b: Board, p: Cell, u: int, v: int)
    ensures SetCell(SetCell(b, p, u), p, v) == SetCell(b, p, v)
  {
    BoardExtensionality(SetCell(SetCell(b, p, u), p, v), SetCell(b, p, v));
  }

  /** Writing a cell back to the value it held gives the original board. */
  lemma SetCellRestore(b: Board, p: Cell, v: int)
    ensures SetCell(SetCell(b, p, v), p, Value(b, p)) == b
  {
    BoardExtensionality(SetCell(SetCell(b, p, v), p, Value(b, p)), b);
  }

  /** The values of an array that has the grid's shape. */
  function BoardOf(a: array2<int>): (b: Board)
    reads a
    requires a.Length0 == 9 && a.Length1 == 9
    ensures forall p :: Value(b, p) == a[p.row, p.col]
  {
    seq(9, r requires 0 <= r < 9 reads a => seq(9, k requires 0 <= k < 9 reads a => a[r, k]))
  }

  /** Row-major position of a cell, 0 for (0, 0) up to 80 for (8, 8). */
  function CellIndex(p: Cell): (i: nat)
    ensures i < 81
  {
    9 * p.row + p.col
  }

  /** The cell at row-major position `i`. */
  function CellAt(i: int): (c: Cell)
    requires 0 <= i < 81
    ensures CellIndex(c) == i
  {
    Cell(i / 9, i % 9)
  }

  /** Distinct cells have distinct row-major positions. */
  lemma CellIndexInjective(p: Cell, q: Cell)
    requires CellIndex(p) == CellIndex(q)
    ensures p == q
  {
  }

  /** The first row (or column) of the 3x3 square that row (or column) `i` falls in. */
  function SquareStart(i: Index): (s: Index)
    ensures s % 3 == 0 && s <= i < s + 3 && s <= 6
  {
    (i / 3) * 3
  }

  predicate SameSquare(p: Cell, q: Cell) {
    SquareStart(p.row) == SquareStart(q.row) && SquareStart(p.col) == SquareStart(q.col)
  }

  /** Two cells constrain each other: same row, same column or same square (a cell is its own peer). */
  predicate Peers(p: Cell, q: Cell) {
    p.row == q.row || p.col == q.col || SameSquare(p, q)
  }

  /** The nine values of row `i`, left to right. */
  function RowValues(b: Board, i: Index): (r: seq<int>)
    ensures |r| == 9 && forall k :: 0 <= k < 9 ==> r[k] == Value(b, Cell(i, k))
  {
    b[i]
  }

  /** The nine values of column `i`, top to bottom. */
  function ColumnValues(b: Board, i: Index): (r: seq<int>)
    ensures |r| == 9 && forall k :: 0 <= k < 9 ==> r[k] == Value(b, Cell(k, i))
  {
    seq(9, k requires 0 <= k < 9 => b[k][i])
  }

  /** The 3x3 square holding `c`: its rows and columns are rounded down to a multiple of 3. */
  function Square(b: Board, c: Cell): (sq: seq<seq<int>>)
    ensures |sq| == 3 && forall i :: 0 <= i < 3 ==> |sq[i]| == 3
  {
    var r0, c0 := SquareStart(c.row), SquareStart(c.col);
    seq(3, i requires 0 <= i < 3 => b[r0 + i][c0 .. c0 + 3])
  }

  /** Entry `(i, j)` of the square is the cell `i` rows and `j` columns from its top-left corner; `c` is among them. */
  lemma SquareAt(b: Board, c: Cell)
    ensures forall i, j :: 0 <= i < 3 && 0 <= j < 3 ==>
              Square(b, c)[i][j] == Value(b, Cell(SquareStart(c.row) + i, SquareStart(c.col) + j))
    ensures Square(b, c)[c.row - SquareStart(c.row)][c.col - SquareStart(c.col)] == Value(b, c)
  {
  }

  /** All cells of one square see the same block. */
  lemma SameSquareSameBlock(b: Board, p: Cell, q: Cell)
    requires SameSquare(p, q)
    ensures Square(b, p) == Square(b, q)
  {
  }

  /** The cell at position `k` (0..8) of the square holding `c`, reading the square row by row. */
  function SquareCell(c: Cell, k: int): (p: Cell)
    requires 0 <= k < 9
    ensures SameSquare(p, c)
  {
    Cell(SquareStart(c.row) + k / 3, SquareStart(c.col) + k % 3)
  }

  /** The position of `p` in the square holding `c`: the inverse of `SquareCell`. */
  function SquarePosition(c: Cell, p: Cell): (k: int)
    requires SameSquare(p, c)
    ensures 0 <= k < 9 && SquareCell(c, k) == p
  {
    var i, j := p.row - SquareStart(c.row), p.col - SquareStart(c.col);
    assert (3 * i + j) / 3 == i && (3 * i + j) % 3 == j by {
      if i == 0 {} else if i == 1 {} else {}
    }
    3 * i + j
  }

  /** The nine values of the square holding `c`, read row by row. */
  function SquareValues(b: Board, c: Cell): (r: seq<int>)
    ensures |r| == 9
  {
    seq(9, k requires 0 <= k < 9 => Value(b, SquareCell(c, k)))
  }

  /** numpy's `flatten()` of the 3x3 square gives the square's values read row by row. */
  lemma FlattenSquare(b: Board, c: Cell)
    ensures Square(b, c)[0] + Square(b, c)[1] + Square(b, c)[2] == SquareValues(b, c)
  {
    var sq := Square(b, c);
    var r := sq[0] + sq[1] + sq[2];
    SquareAt(b, c);
    forall k | 0 <= k < 9 ensures r[k] == SquareValues(b, c)[k] {
      var i, j := k / 3, k % 3;
      assert k == 3 * i + j && 0 <= j < 3;
      assert r[k] == sq[i][j] by {
        if i == 0 {
        } else if i == 1 {
        } else {
        }
      }
    }
  }

  /** The cells holding the marker `m`. */
  function EmptyCells(b: Board, m: int): (s: set<Cell>)
    ensures forall p :: p in s <==> Value(b, p) == m
  {
    set r: int, k: int | 0 <= r < 9 && 0 <= k < 9 && b[r][k] == m :: Cell(r, k)
  }

  /** No cell holds the marker. */
  ghost predicate BoardFull(b: Board, m: int) {
    forall p :: Value(b, p) != m
  }

  lemma NoMarkerIsFull(a: array2<int>, m: int)
    requires a.Length0 == 9 && a.Length1 == 9
    ensures (forall r, k | 0 <= r < 9 && 0 <= k < 9 :: a[r, k] != m) <==> BoardFull(BoardOf(a), m)
  {
    if BoardFull(BoardOf(a), m) {
      forall r, k | 0 <= r < 9 && 0 <= k < 9 ensures a[r, k] != m {
        assert Value(BoardOf(a), Cell(r, k)) != m;
      }
    }
  }

  /**
   * The base grid: a 9x9 integer array and the marker of its empty cells.
   * The constructor keeps the array it is given (numpy does not copy it).
   */
  class SudokuGrid {
    const inner: array2<int>
    const marker: int

    /** The invariant the Python constructor checks before it stores the array. */
    predicate Valid() {
      inner.Length0 == 9 && inner.Length1 == 9 && !IsDigit(marker)
    }

    constructor (startingGrid: array2<int>, emptyCellMarker: int := DefaultEmptyCellMarker)
      requires startingGrid.Length0 == 9 && startingGrid.Length1 == 9 && !IsDigit(emptyCellMarker)
      ensures Valid() && inner == startingGrid && marker == emptyCellMarker
    {
      inner := startingGrid;
      marker := emptyCellMarker;
    }

    /** `SudokuGrid.__init__`: fails unless the array is 9x9 and the marker lies outside 1..9. */
    static method Create(startingGrid: array2<int>, emptyCellMarker: int := DefaultEmptyCellMarker)
      returns (r: Result<SudokuGrid, Error>)
      ensures !(startingGrid.Length0 == 9 && startingGrid.Length1 == 9) ==> r == Failure(NotNineByNine)
      ensures startingGrid.Length0 == 9 && startingGrid.Length1 == 9 && IsDigit(emptyCellMarker) ==>
                r == Failure(MarkerIsDigit)
      ensures r.Success? <==> startingGrid.Length0 == 9 && startingGrid.Length1 == 9 && !IsDigit(emptyCellMarker)
      ensures r.Success? ==> fresh(r.value) && r.value.Valid()
                             && r.value.inner == startingGrid && r.value.marker == emptyCellMarker
    {
      if !(startingGrid.Length0 == 9 && startingGrid.Length1 == 9) {
        return Failure(NotNineByNine);
      }
      if emptyCellMarker in [1, 2, 3, 4, 5, 6, 7, 8, 9] {
        return Failure(MarkerIsDigit);
      }
      var g := new SudokuGrid(startingGrid, emptyCellMarker);
      r := Success(g);
    }

    /** The grid's current values. */
    function Board(): Board
      reads inner
      requires Valid()
    {
      BoardOf(inner)
    }

    /** A deep copy of the array: a fresh array holding the same values. */
    method GetInnerGridCopy() returns (copy: array2<int>)
      requires Valid()
      ensures fresh(copy) && copy.Length0 == 9 && copy.Length1 == 9
      ensures BoardOf(copy) == Board()
    {
      copy := new int[9, 9]((r, k) requires 0 <= r < 9 && 0 <= k < 9 reads inner => inner[r, k]);
      BoardExtensionality(BoardOf(copy), Board());
    }

    function GetValue(cell: Cell): (v: int)
      reads inner
      requires Valid()
      ensures v == Value(Board(), cell)
    {
      inner[cell.row, cell.col]
    }

    /**
     * Writes `val` into `cell`. The code, unlike its docstring, refuses a
     * non-empty cell only when `overwrite` is true, and it refuses every value
     * outside 1..9, the marker included.
     */
    method SetValue(cell: Cell, val: int, overwrite: bool := false) returns (out: Outcome<Error>)
      requires Valid()
      modifies inner
      ensures overwrite && Value(old(Board()), cell) != marker ==> out == Fail(NonEmptyCellWrite(cell))
      ensures !(overwrite && Value(old(Board()), cell) != marker) ==>
                out == if IsDigit(val) then Pass else Fail(InvalidValue(val))
      ensures out.Pass? ==> Board() == SetCell(old(Board()), cell, val)
      ensures out.Fail? ==> Board() == old(Board())
    {
      if overwrite {
        if inner[cell.row, cell.col] != marker {
          return Fail(NonEmptyCellWrite(cell));
        }
      }
      if !(1 <= val <= 9) {
        return Fail(InvalidValue(val));
      }
      inner[cell.row, cell.col] := val;
      BoardExtensionality(Board(), SetCell(old(Board()), cell, val));
      out := Pass;
    }

    /** Puts the marker into `cell`, whatever it held. */
    method EmptyCell(cell: Cell)
      requires Valid()
      modifies inner
      ensures Board() == SetCell(old(Board()), cell, marker)
    {
      inner[cell.row, cell.col] := marker;
      BoardExtensionality(Board(), SetCell(old(Board()), cell, marker));
    }

    function GetRow(i: int): (r: Result<seq<int>, Error>)
      reads inner
      requires Valid()
      ensures r.Failure? <==> !(0 <= i <= 8)
      ensures r.Failure? ==> r.error == IndexOutOfRange(i)
      ensures r.Success? ==> r.value == RowValues(Board(), i)
    {
      if !(0 <= i <= 8) then Failure(IndexOutOfRange(i))
      else Success(seq(9, k requires 0 <= k < 9 reads inner => inner[i, k]))
    }

    function GetColumn(i: int): (r: Result<seq<int>, Error>)
      reads inner
      requires Valid()
      ensures r.Failure? <==> !(0 <= i <= 8)
      ensures r.Failure? ==> r.error == IndexOutOfRange(i)
      ensures r.Success? ==> r.value == ColumnValues(Board(), i)
    {
      if !(0 <= i <= 8) then Failure(IndexOutOfRange(i))
      else Success(seq(9, k requires 0 <= k < 9 reads inner => inner[k, i]))
    }

    function GetSquare(cell: Cell): (sq: seq<seq<int>>)
      reads inner
      requires Valid()
      ensures sq == Square(Board(), cell)
    {
      var r0, c0 := SquareStart(cell.row), SquareStart(cell.col);
      var sq := seq(3, i requires 0 <= i < 3 reads inner =>
        seq(3, j requires 0 <= j < 3 reads inner => inner[r0 + i, c0 + j]));
      SquareAt(Board(), cell);
      assert forall i :: 0 <= i < 3 ==> sq[i] == Square(Board(), cell)[i];
      sq
    }

    function IsFull(): (full: bool)
      reads inner
      requires Valid()
      ensures full <==> BoardFull(Board(), marker)
      ensures full <==> EmptyCells(Board(), marker) == {}
    {
      NoMarkerIsFull(inner, marker);
      forall r, k | 0 <= r < 9 && 0 <= k < 9 :: inner[r, k] != marker
    }
  }
}
