/**
 * The checks of `solvers/utils.py`: a row, column or square has no repeated
 * number from 1 to 9; a grid is valid when none of its 27 units repeats one;
 * a solution is correct when the grid is full and valid.
 */
module SolutionChecks {
  import opened SudokuBase

  predicate StrictlyIncreasing(s: seq<int>) {
    forall i, j :: 0 <= i < j < |s| ==> s[i] < s[j]
  }

  /** Inserts `v` into a strictly increasing sequence, unless it is already there. */
  function InsertSorted(xs: seq<int>, v: int): (r: seq<int>)
    requires StrictlyIncreasing(xs)
    ensures StrictlyIncreasing(r)
    ensures forall x :: x in r <==> x in xs || x == v
  {
    if xs == [] then [v]
    else if v < xs[0] then [v] + xs
    else if v == xs[0] then xs
    else
      var rest := InsertSorted(xs[1..], v);
      assert forall x :: x in rest ==> xs[0] < x by {
        assert forall k :: 1 <= k < |xs| ==> xs[0] < xs[k];
      }
      assert forall k :: 0 <= k < |rest| ==> rest[k] in rest;
      [xs[0]] + rest
  }

  /** `np.unique`: the distinct values of `a`, in increasing order. */
  function Unique(a: seq<int>): (u: seq<int>)
    ensures StrictlyIncreasing(u)
    ensures forall x :: x in u <==> x in a
  {
    if a == [] then [] else InsertSorted(Unique(a[..|a| - 1]), a[|a| - 1])
  }

  /** The elements of `u` that occur more than once in `a`, in the order of `u`. */
  function KeepRepeated(u: seq<int>, a: seq<int>): (d: seq<int>)
    requires StrictlyIncreasing(u)
    ensures StrictlyIncreasing(d)
    ensures forall x :: x in d <==> x in u && multiset(a)[x] > 1
  {
    if u == [] then []
    else
      var rest := KeepRepeated(u[1..], a);
      if multiset(a)[u[0]] > 1 then
        assert forall x :: x in u[1..] ==> u[0] < x;
        assert forall k :: 0 <= k < |rest| ==> rest[k] in rest;
        [u[0]] + rest
      else
        rest
  }

  /**
   * `get_duplicates`: the values occurring more than once, in increasing
   * order, paired with how often each occurs.
   */
  function GetDuplicates(a: seq<int>): (r: (seq<int>, seq<nat>))
    ensures StrictlyIncreasing(r.0) && |r.1| == |r.0|
    ensures forall x :: x in r.0 <==> multiset(a)[x] > 1
    ensures forall i :: 0 <= i < |r.0| ==> r.1[i] == multiset(a)[r.0[i]] && r.1[i] > 1
  {
    var duplicates := KeepRepeated(Unique(a), a);
    (duplicates, seq(|duplicates|, i requires 0 <= i < |duplicates| => multiset(a)[duplicates[i]]))
  }

  /** No number from 1 to 9 appears twice in `a`; other values may repeat. */
  predicate NoDigitRepeated(a: seq<int>) {
    a == [] || ((!IsDigit(a[0]) || a[0] !in a[1..]) && NoDigitRepeated(a[1..]))
  }

  /** The same, stated over pairs of positions. */
  predicate NoDigitAtTwoPositions(a: seq<int>) {
    forall i, j :: 0 <= i < j < |a| && IsDigit(a[i]) ==> a[i] != a[j]
  }

  lemma {:induction false} NoDigitRepeatedIffPairwise(a: seq<int>)
    ensures NoDigitRepeated(a) <==> NoDigitAtTwoPositions(a)
  {
    if a != [] {
      var t := a[1..];
      NoDigitRepeatedIffPairwise(t);
      if NoDigitRepeated(a) {
        forall i, j | 0 <= i < j < |a| && IsDigit(a[i]) ensures a[i] != a[j] {
          if i == 0 {
            assert a[j] == t[j - 1];
          } else {
            assert a[i] == t[i - 1] && a[j] == t[j - 1];
          }
        }
      } else if IsDigit(a[0]) && a[0] in t {
        var j :| 0 <= j < |t| && t[j] == a[0];
        assert a[j + 1] == a[0];
      } else {
        var i, j :| 0 <= i < j < |t| && IsDigit(t[i]) && t[i] == t[j];
        assert a[i + 1] == a[j + 1];
      }
    }
  }

  /** A value occurs more than once exactly when it sits at two distinct positions. */
  lemma {:induction false} CountAboveOneIffTwoPositions(a: seq<int>, v: int)
    ensures multiset(a)[v] > 1 <==> exists i, j :: 0 <= i < j < |a| && a[i] == v && a[j] == v
  {
    if a == [] {
      return;
    }
    var n := |a| - 1;
    var init := a[..n];
    assert a == init + [a[n]];
    CountAboveOneIffTwoPositions(init, v);
    if multiset(a)[v] > 1 {
      if multiset(init)[v] > 1 {
        var i, j :| 0 <= i < j < |init| && init[i] == v && init[j] == v;
        assert a[i] == v && a[j] == v;
      } else {
        assert multiset(init)[v] == 1 && a[n] == v;
        assert v in init;
        var i :| 0 <= i < |init| && init[i] == v;
        assert a[i] == v && a[n] == v;
      }
    }
    if exists i, j :: 0 <= i < j < |a| && a[i] == v && a[j] == v {
      var i, j :| 0 <= i < j < |a| && a[i] == v && a[j] == v;
      if j < n {
        assert init[i] == v && init[j] == v;
      } else {
        assert init[i] == v;
        assert v in init;
      }
    }
  }

  /**
   * `check_no_sudoku_duplicates`: true iff no value from 1 to 9 is among the
   * duplicates of the nine values. The source asserts that there are nine.
   */
  method CheckNoSudokuDuplicates(a: seq<int>) returns (ok: bool)
    requires |a| == 9
    ensures ok <==> NoDigitRepeated(a)
  {
    var (duplicates, _) := GetDuplicates(a);
    ok := !exists i :: 0 <= i < |duplicates| && 1 <= duplicates[i] <= 9;
    assert ok <==> forall v :: IsDigit(v) ==> multiset(a)[v] <= 1 by {
      if !ok {
        var i :| 0 <= i < |duplicates| && 1 <= duplicates[i] <= 9;
        assert duplicates[i] in duplicates;
      }
    }
    NoDigitRepeatedIffCounts(a);
  }

  /** No number from 1 to 9 repeats exactly when each of them occurs at most once. */
  lemma NoDigitRepeatedIffCounts(a: seq<int>)
    ensures NoDigitRepeated(a) <==> forall v :: IsDigit(v) ==> multiset(a)[v] <= 1
  {
    NoDigitRepeatedIffPairwise(a);
    if NoDigitRepeated(a) {
      forall v | IsDigit(v) ensures multiset(a)[v] <= 1 {
        CountAboveOneIffTwoPositions(a, v);
      }
    } else {
      var i, j :| 0 <= i < j < |a| && IsDigit(a[i]) && a[i] == a[j];
      CountAboveOneIffTwoPositions(a, a[i]);
    }
  }

  /** The top-left cell of the square in square-row `i` and square-column `j`. */
  function SquareOrigin(i: int, j: int): Cell
    requires 0 <= i < 3 && 0 <= j < 3
  {
    Cell(3 * i, 3 * j)
  }

  /** The specification of `is_grid_valid`: no row, column or square repeats a number from 1 to 9. */
  ghost predicate GridValid(b: Board) {
    && (forall i :: 0 <= i < 9 ==> NoDigitRepeated(RowValues(b, i)) && NoDigitRepeated(ColumnValues(b, i)))
    && (forall i, j :: 0 <= i < 3 && 0 <= j < 3 ==> NoDigitRepeated(SquareValues(b, SquareOrigin(i, j))))
  }

  /** Two different peers never hold the same number from 1 to 9. */
  ghost predicate NoPeerConflicts(b: Board) {
    forall p, q :: p != q && Peers(p, q) && IsDigit(Value(b, p)) ==> Value(b, p) != Value(b, q)
  }

  /** The specification of `is_solution_correct`: full and valid. */
  ghost predicate SolutionCorrect(b: Board, m: int) {
    BoardFull(b, m) && GridValid(b)
  }

  lemma RowNoRepeatIff(b: Board, i: Index)
    ensures NoDigitRepeated(RowValues(b, i)) <==>
              forall p: Cell, q: Cell :: p.row == i && q.row == i && p != q && IsDigit(Value(b, p)) ==> Value(b, p) != Value(b, q)
  {
    var r := RowValues(b, i);
    NoDigitRepeatedIffPairwise(r);
    if NoDigitRepeated(r) {
      forall p: Cell, q: Cell | p.row == i && q.row == i && p != q && IsDigit(Value(b, p))
        ensures Value(b, p) != Value(b, q)
      {
        if p.col < q.col {
          assert r[p.col] == Value(b, p) && r[q.col] == Value(b, q);
        } else {
          assert r[q.col] == Value(b, q) && r[p.col] == Value(b, p);
        }
      }
    } else {
      var k, l :| 0 <= k < l < 9 && IsDigit(r[k]) && r[k] == r[l];
      assert Value(b, Cell(i, k)) == Value(b, Cell(i, l));
    }
  }

  lemma ColumnNoRepeatIff(b: Board, i: Index)
    ensures NoDigitRepeated(ColumnValues(b, i)) <==>
              forall p: Cell, q: Cell :: p.col == i && q.col == i && p != q && IsDigit(Value(b, p)) ==> Value(b, p) != Value(b, q)
  {
    var r := ColumnValues(b, i);
    NoDigitRepeatedIffPairwise(r);
    if NoDigitRepeated(r) {
      forall p: Cell, q: Cell | p.col == i && q.col == i && p != q && IsDigit(Value(b, p))
        ensures Value(b, p) != Value(b, q)
      {
        if p.row < q.row {
          assert r[p.row] == Value(b, p) && r[q.row] == Value(b, q);
        } else {
          assert r[q.row] == Value(b, q) && r[p.row] == Value(b, p);
        }
      }
    } else {
      var k, l :| 0 <= k < l < 9 && IsDigit(r[k]) && r[k] == r[l];
      assert Value(b, Cell(k, i)) == Value(b, Cell(l, i));
    }
  }

  lemma SquareNoRepeatIff(b: Board, c: Cell)
    ensures NoDigitRepeated(SquareValues(b, c)) <==>
              forall p, q :: SameSquare(p, c) && SameSquare(q, c) && p != q && IsDigit(Value(b, p)) ==>
                Value(b, p) != Value(b, q)
  {
    var r := SquareValues(b, c);
    NoDigitRepeatedIffPairwise(r);
    if NoDigitRepeated(r) {
      forall p, q | SameSquare(p, c) && SameSquare(q, c) && p != q && IsDigit(Value(b, p))
        ensures Value(b, p) != Value(b, q)
      {
        var k, l := SquarePosition(c, p), SquarePosition(c, q);
        assert r[k] == Value(b, p) && r[l] == Value(b, q);
        assert k != l;
      }
    } else {
      var k, l :| 0 <= k < l < 9 && IsDigit(r[k]) && r[k] == r[l];
      assert SquareCell(c, k) != SquareCell(c, l) by {
        assert SquarePosition(c, SquareCell(c, k)) == k;
        assert SquarePosition(c, SquareCell(c, l)) == l;
      }
      assert Value(b, SquareCell(c, k)) == Value(b, SquareCell(c, l));
    }
  }

  /** Every cell lies in the square with origin `(3 * (row / 3), 3 * (col / 3))`. */
  lemma SquareOfCell(p: Cell)
    ensures SameSquare(p, SquareOrigin(p.row / 3, p.col / 3))
  {
  }

  /** Checking the 27 units is the same as checking every pair of peers. */
  lemma {:induction false} GridValidIffNoPeerConflicts(b: Board)
    ensures GridValid(b) <==> NoPeerConflicts(b)
  {
    if GridValid(b) {
      forall p, q | p != q && Peers(p, q) && IsDigit(Value(b, p)) ensures Value(b, p) != Value(b, q) {
        if p.row == q.row {
          RowNoRepeatIff(b, p.row);
        } else if p.col == q.col {
          ColumnNoRepeatIff(b, p.col);
        } else {
          SquareOfCell(p);
          SquareNoRepeatIff(b, SquareOrigin(p.row / 3, p.col / 3));
        }
      }
    } else if exists i :: 0 <= i < 9 && !NoDigitRepeated(RowValues(b, i)) {
      var i :| 0 <= i < 9 && !NoDigitRepeated(RowValues(b, i));
      RowNoRepeatIff(b, i);
      var p: Cell, q: Cell :| p.row == i && q.row == i && p != q && IsDigit(Value(b, p)) && Value(b, p) == Value(b, q);
      assert Peers(p, q);
    } else if exists i :: 0 <= i < 9 && !NoDigitRepeated(ColumnValues(b, i)) {
      var i :| 0 <= i < 9 && !NoDigitRepeated(ColumnValues(b, i));
      ColumnNoRepeatIff(b, i);
      var p: Cell, q: Cell :| p.col == i && q.col == i && p != q && IsDigit(Value(b, p)) && Value(b, p) == Value(b, q);
      assert Peers(p, q);
    } else {
      var i, j :| 0 <= i < 3 && 0 <= j < 3 && !NoDigitRepeated(SquareValues(b, SquareOrigin(i, j)));
      var c := SquareOrigin(i, j);
      SquareNoRepeatIff(b, c);
      var p, q :| SameSquare(p, c) && SameSquare(q, c) && p != q && IsDigit(Value(b, p)) && Value(b, p) == Value(b, q);
      assert Peers(p, q);
    }
  }

  /** Rows and columns of `b` up to (not including) index `n` repeat no number from 1 to 9. */
  ghost predicate LinesValidBelow(b: Board, n: int) {
    forall k :: 0 <= k < n && k < 9 ==> NoDigitRepeated(RowValues(b, k)) && NoDigitRepeated(ColumnValues(b, k))
  }

  /** The squares of `b` in square-rows before `i`, and in square-row `i` before square-column `j`, repeat no number from 1 to 9. */
  ghost predicate SquaresValidBelow(b: Board, i: int, j: int) {
    && (forall k, l :: 0 <= k < i && k < 3 && 0 <= l < 3 ==> NoDigitRepeated(SquareValues(b, SquareOrigin(k, l))))
    && (forall l :: 0 <= i < 3 && 0 <= l < j && l < 3 ==> NoDigitRepeated(SquareValues(b, SquareOrigin(i, l))))
  }

  /** One more valid square extends the squares checked so far; a full square-row moves on to the next. */
  lemma SquaresValidStep(b: Board, i: int, j: int)
    requires 0 <= i < 3 && 0 <= j < 3
    requires SquaresValidBelow(b, i, j)
    requires NoDigitRepeated(SquareValues(b, SquareOrigin(i, j)))
    ensures SquaresValidBelow(b, i, j + 1)
    ensures j == 2 ==> SquaresValidBelow(b, i + 1, 0)
  {
  }

  /**
   * `is_grid_valid`, first loop: rows and columns, `valid &= ...` for
   * both, returning false at the first index where either repeats.
   */
  method RowsAndColumnsValid(grid: SudokuGrid) returns (valid: bool)
    requires grid.Valid()
    ensures valid <==> LinesValidBelow(grid.Board(), 9)
  {
    ghost var b := grid.Board();
    valid := true;
    for i := 0 to 9
      invariant valid
      invariant LinesValidBelow(b, i)
    {
      var row := grid.GetRow(i);
      var column := grid.GetColumn(i);
      var rowOk := CheckNoSudokuDuplicates(row.value);
      valid := valid && rowOk;
      var columnOk := CheckNoSudokuDuplicates(column.value);
      valid := valid && columnOk;
      if !valid {
        return false;
      }
    }
  }

  /** `is_grid_valid`, second loop: the nine squares, returning false at the first that repeats. */
  method SquaresValid(grid: SudokuGrid) returns (valid: bool)
    requires grid.Valid()
    ensures valid <==> SquaresValidBelow(grid.Board(), 3, 0)
  {
    ghost var b := grid.Board();
    for i := 0 to 3
      invariant SquaresValidBelow(b, i, 0)
    {
      for j := 0 to 3
        invariant SquaresValidBelow(b, i, j)
      {
        var square := grid.GetSquare(Cell(i * 3, j * 3));
        var values := square[0] + square[1] + square[2];
        ghost var origin := SquareOrigin(i, j);
        assert square == Square(b, origin);
        FlattenSquare(b, origin);
        assert values == SquareValues(b, origin);
        var squareOk := CheckNoSudokuDuplicates(values);
        if !squareOk {
          return false;
        }
        SquaresValidStep(b, i, j);
      }
    }
    return true;
  }

  /** `is_grid_valid`: the rows and columns loop, then the squares loop. */
  method IsGridValid(grid: SudokuGrid) returns (valid: bool)
    requires grid.Valid()
    ensures valid <==> GridValid(grid.Board())
  {
    valid := RowsAndColumnsValid(grid);
    if !valid {
      return false;
    }
    valid := SquaresValid(grid);
  }

  /** `is_solution_correct`: full, and then valid. */
  method IsSolutionCorrect(solution: SudokuGrid) returns (correct: bool)
    requires solution.Valid()
    ensures correct <==> SolutionCorrect(solution.Board(), solution.marker)
  {
    if !solution.IsFull() {
      return false;
    }
    correct := IsGridValid(solution);
  }
}
