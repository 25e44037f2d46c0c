/**
 * The grid reader of the command-line entry point: the file's text with
 * its whitespace dropped is read as 81 cells in row-major order; '1'..'9'
 * become those numbers and any other character an empty cell.
 */
module Parser {
  import opened Wrappers
  import opened SudokuBase

  /** The empty-cell marker the entry point uses. */
  const EmptyCellMarker: int := -777

  /** The text reading fails only when it runs out of characters at cell `index`. */
  datatype ParseError = MissingCell(index: int)

  predicate IsAscii(text: string) {
    forall i :: 0 <= i < |text| ==> text[i] as int < 128
  }

  /** What `str.split()` splits on, restricted to ASCII: space, tab to carriage return, and the four separators 0x1c..0x1f. */
  predicate IsWhitespace(c: char) {
    c == ' ' || 9 <= c as int <= 13 || 28 <= c as int <= 31
  }

  /** `str.isnumeric()` on an ASCII character. */
  predicate IsNumeric(c: char) {
    '0' <= c <= '9'
  }

  /** The characters of `text.split()`, flattened: every non-whitespace character, in order. */
  function Cells(text: string): (cells: string)
    ensures |cells| <= |text|
    ensures forall i :: 0 <= i < |cells| ==> !IsWhitespace(cells[i])
  {
    if text == [] then []
    else (if IsWhitespace(text[0]) then [] else [text[0]]) + Cells(text[1..])
  }

  /** Dropping whitespace from two pieces of text one after the other drops it from the whole. */
  lemma {:induction false} CellsOfConcat(a: string, b: string)
    ensures Cells(a + b) == Cells(a) + Cells(b)
  {
    if a != [] {
      assert (a + b)[1..] == a[1..] + b;
      CellsOfConcat(a[1..], b);
    } else {
      assert a + b == b;
    }
  }

  /** Text without whitespace is its own list of cells. */
  lemma {:induction false} CellsWithoutWhitespace(text: string)
    requires forall i :: 0 <= i < |text| ==> !IsWhitespace(text[i])
    ensures Cells(text) == text
  {
    if text != [] {
      CellsWithoutWhitespace(text[1..]);
    }
  }

  /** The number one character stands for: '1'..'9' their value, everything else the marker. */
  function CellValue(c: char): (v: int)
    ensures IsDigit(v) <==> '1' <= c <= '9'
    ensures !IsDigit(v) ==> v == EmptyCellMarker
    ensures IsDigit(v) ==> v == c as int - '0' as int
  {
    if IsNumeric(c) && 1 <= c as int - '0' as int <= 9 then c as int - '0' as int else EmptyCellMarker
  }

  /** The grid read from at least 81 cells: cell (r, k) from the character at 9 * r + k. */
  function GridOf(cells: string): (g: Board)
    requires |cells| >= 81
    ensures forall p :: Value(g, p) == CellValue(cells[CellIndex(p)])
    ensures forall p :: IsDigit(Value(g, p)) || Value(g, p) == EmptyCellMarker
  {
    seq(9, r requires 0 <= r < 9 => seq(9, k requires 0 <= k < 9 => CellValue(cells[9 * r + k])))
  }

  /** Characters after the 81st do not change the grid. */
  lemma TrailingCellsIgnored(cells: string, extra: string)
    requires |cells| >= 81
    ensures GridOf(cells + extra) == GridOf(cells)
  {
    forall p ensures Value(GridOf(cells + extra), p) == Value(GridOf(cells), p) {
      assert (cells + extra)[CellIndex(p)] == cells[CellIndex(p)];
    }
    BoardExtensionality(GridOf(cells + extra), GridOf(cells));
  }

  /**
   * `parse_sudoku_file` after the file is read: the nested loops build the
   * rows cell by cell; indexing past the last cell is Python's IndexError.
   */
  method ParseSudokuText(text: string) returns (r: Result<seq<seq<int>>, ParseError>)
    requires IsAscii(text)
    ensures |Cells(text)| < 81 ==> r == Failure(MissingCell(|Cells(text)|))
    ensures |Cells(text)| >= 81 ==> r == Success(GridOf(Cells(text)))
  {
    var cells := Cells(text);
    var rows: seq<seq<int>> := [];
    for row := 0 to 9
      invariant |rows| == row && 9 * row <= |cells|
      invariant forall i :: 0 <= i < row ==> |rows[i]| == 9
      invariant forall i, k :: 0 <= i < row && 0 <= k < 9 ==> rows[i][k] == CellValue(cells[9 * i + k])
    {
      var currentRow: seq<int> := [];
      for col := 0 to 9
        invariant |currentRow| == col && 9 * row + col <= |cells|
        invariant forall k :: 0 <= k < col ==> currentRow[k] == CellValue(cells[9 * row + k])
      {
        if row * 9 + col >= |cells| {
          return Failure(MissingCell(row * 9 + col));
        }
        var currentCell := cells[row * 9 + col];
        if IsNumeric(currentCell) && 1 <= currentCell as int - '0' as int <= 9 {
          currentRow := currentRow + [currentCell as int - '0' as int];
        } else {
          currentRow := currentRow + [EmptyCellMarker];
        }
      }
      rows := rows + [currentRow];
    }
    forall i, k | 0 <= i < 9 && 0 <= k < 9 ensures rows[i][k] == GridOf(cells)[i][k] {
      assert GridOf(cells)[i][k] == Value(GridOf(cells), Cell(i, k));
    }
    BoardExtensionality(rows, GridOf(cells));
    return Success(rows);
  }

  /** The character a cell value is written as: its digit, or 'x' for an empty cell. */
  function CellChar(v: int): (c: char)
    ensures !IsWhitespace(c)
  {
    if IsDigit(v) then ('0' as int + v) as char else 'x'
  }

  function RenderRow(row: seq<int>): (line: string)
    requires |row| == 9
    ensures |line| == 9
  {
    seq(9, k requires 0 <= k < 9 => CellChar(row[k]))
  }

  /** The first `n` rows of `b`, one line each, as in the grid files. */
  function Render(b: Board, n: nat): string
    requires n <= 9
  {
    if n == 0 then "" else Render(b, n - 1) + RenderRow(b[n - 1]) + "\n"
  }

  /** The first `n` rows of `b` written one after another with no line breaks. */
  function Flat(b: Board, n: nat): (s: string)
    requires n <= 9
    ensures |s| == 9 * n
    ensures forall i, k :: 0 <= i < n && 0 <= k < 9 ==> s[9 * i + k] == CellChar(b[i][k])
  {
    if n == 0 then "" else Flat(b, n - 1) + RenderRow(b[n - 1])
  }

  /** Dropping the whitespace of the rendered rows leaves the rows written back to back. */
  lemma {:induction false} CellsOfRender(b: Board, n: nat)
    requires n <= 9
    ensures Cells(Render(b, n)) == Flat(b, n)
  {
    if n == 0 {
    } else {
      CellsOfRender(b, n - 1);
      CellsOfConcat(Render(b, n - 1) + RenderRow(b[n - 1]), "\n");
      CellsOfConcat(Render(b, n - 1), RenderRow(b[n - 1]));
      CellsWithoutWhitespace(RenderRow(b[n - 1]));
      assert Cells("\n") == [];
    }
  }

  /**
   * Reading back a written grid gives the grid, for any grid whose cells
   * hold digits or the marker, as the reader produces them.
   */
  lemma {:induction false} ReadWrittenGrid(b: Board)
    requires forall p :: IsDigit(Value(b, p)) || Value(b, p) == EmptyCellMarker
    ensures |Cells(Render(b, 9))| >= 81
    ensures GridOf(Cells(Render(b, 9))) == b
  {
    CellsOfRender(b, 9);
    var cells := Flat(b, 9);
    forall r, k | 0 <= r < 9 && 0 <= k < 9 ensures GridOf(cells)[r][k] == b[r][k] {
      assert Value(b, Cell(r, k)) == b[r][k];
    }
    BoardExtensionality(GridOf(cells), b);
  }
}
