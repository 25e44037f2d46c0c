/**
 * The backtracking solver with constraint propagation: a recursive search
 * that fills the empty cell with the fewest candidates, tries each candidate
 * in turn, and empties the cell again when none leads to a solution.
 */
module BtCp {
  import opened Wrappers
  import opened SudokuBase
  import opened SudokuCP
  import opened SolutionChecks

  /**
   * `s` completes `b`: it is a correct solution, it keeps every cell of `b`
   * that does not hold the marker `m`, and it puts a digit in every cell
   * that does.
   */
  ghost predicate IsCompletion(b: Board, m: int, s: Board) {
    && SolutionCorrect(s, m)
    && (forall p :: Value(b, p) != m ==> Value(s, p) == Value(b, p))
    && (forall p :: Value(b, p) == m ==> IsDigit(Value(s, p)))
  }

  ghost predicate HasCompletion(b: Board, m: int) {
    exists s :: IsCompletion(b, m, s)
  }

  /** A full board has one completion at most: itself, when it is correct. */
  lemma FullBoardCompletion(b: Board, m: int, s: Board)
    requires BoardFull(b, m)
    ensures IsCompletion(b, m, s) <==> s == b && SolutionCorrect(b, m)
  {
    if IsCompletion(b, m, s) {
      forall r, k | 0 <= r < 9 && 0 <= k < 9 ensures s[r][k] == b[r][k] {
        assert Value(b, Cell(r, k)) != m;
      }
      BoardExtensionality(s, b);
    }
  }

  /**
   * The value a completion puts in an empty cell is a candidate of that
   * cell: no peer already holds it.
   */
  lemma {:induction false} CompletionValueInDomain(b: Board, m: int, s: Board, c: Cell)
    requires Value(b, c) == m && IsCompletion(b, m, s)
    ensures Value(s, c) in CalculateCellDomain(b, c)
  {
    var v := Value(s, c);
    GridValidIffNoPeerConflicts(s);
    forall p | Peers(p, c) ensures Value(b, p) != v {
      if Value(b, p) != m && p != c {
        assert Value(s, p) == Value(b, p);
      }
    }
    InDomainIff(b, c, v);
  }

  /** Placing the value a completion has in an empty cell keeps it a completion. */
  lemma CompletionAfterWrite(b: Board, m: int, s: Board, c: Cell)
    requires Value(b, c) == m && IsCompletion(b, m, s)
    ensures IsCompletion(SetCell(b, c, Value(s, c)), m, s)
  {
  }

  /** A completion of the board with one more digit placed is a completion of the board. */
  lemma CompletionBeforeWrite(b: Board, m: int, s: Board, c: Cell, v: int)
    requires Value(b, c) == m && IsDigit(v) && !IsDigit(m)
    requires IsCompletion(SetCell(b, c, v), m, s)
    ensures IsCompletion(b, m, s)
  {
    assert Value(s, c) == v;
  }

  /**
   * The `NotInDomain` gate never fires in the search: once the cell holds a
   * value `w` tried earlier, every other candidate is still in its domain.
   */
  lemma {:induction false} AttemptPassesGate(b: Board, c: Cell, v: int, w: int)
    requires v in CalculateCellDomain(b, c) && v != w
    ensures v in CalculateCellDomain(SetCell(b, c, w), c)
  {
    InDomainIff(b, c, v);
    forall p | Peers(p, c) ensures Value(SetCell(b, c, w), p) != v {
      if p != c {
        assert Value(SetCell(b, c, w), p) == Value(b, p);
      }
    }
    InDomainIff(SetCell(b, c, w), c, v);
  }

  /**
   * A write that passes the domain gate never puts a digit next to a peer
   * holding the same digit: the search keeps a conflict-free grid so.
   */
  lemma {:induction false} WriteKeepsNoConflicts(b: Board, c: Cell, v: int)
    requires NoPeerConflicts(b) && v in CalculateCellDomain(b, c)
    ensures NoPeerConflicts(SetCell(b, c, v))
  {
    InDomainIff(b, c, v);
    var b' := SetCell(b, c, v);
    forall p, q | p != q && Peers(p, q) && IsDigit(Value(b', p)) ensures Value(b', p) != Value(b', q) {
      if p == c {
        assert Peers(q, c);
      } else if q == c {
        assert Peers(p, c);
      }
    }
  }

  /** Filling an empty cell takes exactly that cell out of the empty cells. */
  lemma {:induction false} FillingShrinksEmptyCells(b: Board, m: int, c: Cell, v: int)
    requires Value(b, c) == m && v != m
    ensures EmptyCells(SetCell(b, c, v), m) == EmptyCells(b, m) - {c}
    ensures |EmptyCells(SetCell(b, c, v), m)| == |EmptyCells(b, m)| - 1
  {
    var after := EmptyCells(SetCell(b, c, v), m);
    forall p ensures p in after <==> p in EmptyCells(b, m) - {c} {
      if p != c {
        assert Value(SetCell(b, c, v), p) == Value(b, p);
      }
    }
    assert after == EmptyCells(b, m) - {c};
  }

  /** A sequence of distinct elements of `t` is no longer than `t` has elements. */
  lemma {:induction false} DistinctFits(xs: seq<int>, t: set<int>)
    requires forall i :: 0 <= i < |xs| ==> xs[i] in t
    requires forall i, j :: 0 <= i < j < |xs| ==> xs[i] != xs[j]
    ensures |xs| <= |t|
  {
    if xs != [] {
      var rest := xs[1..];
      forall i | 0 <= i < |rest| ensures rest[i] in t - {xs[0]} {
        assert rest[i] == xs[i + 1];
      }
      DistinctFits(rest, t - {xs[0]});
    }
  }

  /** A valid row of nine digits holds every digit. */
  lemma {:induction false} ValidRowHoldsEveryDigit(s: Board, r: Index, u: int)
    requires forall p: Cell :: p.row == r ==> IsDigit(Value(s, p))
    requires NoDigitRepeated(RowValues(s, r))
    requires IsDigit(u)
    ensures exists k :: 0 <= k < 9 && s[r][k] == u
  {
    var row := RowValues(s, r);
    RowNoRepeatIff(s, r);
    if forall k :: 0 <= k < 9 ==> s[r][k] != u {
      DigitsAreDigits(u);
      forall i | 0 <= i < 9 ensures row[i] in Digits - {u} {
        assert IsDigit(Value(s, Cell(r, i)));
        DigitsAreDigits(row[i]);
      }
      forall i, j | 0 <= i < j < 9 ensures row[i] != row[j] {
        assert Value(s, Cell(r, i)) != Value(s, Cell(r, j));
      }
      DistinctFits(row, Digits - {u});
    }
  }

  /**
   * On a solved grid of digits with one cell cleared, that cell is the
   * only empty cell, its domain is the value it held alone, and so it is
   * what `get_minimum_domain_empty_cell` picks.
   */
  lemma {:induction false} OneClearedCellOfSolution(s: Board, m: int, c: Cell, ch: Choice)
    requires forall p :: IsDigit(Value(s, p))
    requires GridValid(s) && !IsDigit(m)
    ensures EmptyCells(SetCell(s, c, m), m) == {c}
    ensures CalculateCellDomain(SetCell(s, c, m), c) == {Value(s, c)}
    ensures IsMinimumChoice(SetCell(s, c, m), m, ch) <==> ch == Choice(c, {Value(s, c)})
  {
    var b := SetCell(s, c, m);
    var v := Value(s, c);
    GridValidIffNoPeerConflicts(s);
    forall u ensures u in CalculateCellDomain(b, c) <==> u == v {
      InDomainIff(b, c, u);
      if u == v {
        forall p | Peers(p, c) ensures Value(b, p) != v {
          if p != c {
            assert Value(b, p) == Value(s, p);
          }
        }
      } else if IsDigit(u) {
        ValidRowHoldsEveryDigit(s, c.row, u);
        var k :| 0 <= k < 9 && s[c.row][k] == u;
        assert Peers(Cell(c.row, k), c) && Value(b, Cell(c.row, k)) == u;
      }
    }
    assert EmptyCells(b, m) == {c};
  }

  /**
   * One turn of the loop of `solver_aux`: `set_value(cell, attempt,
   * overwrite=False)` on a grid that holds `b`, or `b` with an earlier
   * attempt in `cell`. The domain gate passes, and a conflict-free grid
   * stays conflict-free.
   */
  method PlaceAttempt(g: ConstraintPropagationSudokuGrid, cell: Cell, attempt: int, ghost b: Board, ghost last: Option<int>)
    requires g.Valid() && Value(b, cell) == g.grid.marker
    requires attempt in CalculateCellDomain(b, cell)
    requires last.None? ==> g.Board() == b
    requires last.Some? ==> last.value in CalculateCellDomain(b, cell) && last.value != attempt
    requires last.Some? ==> g.Board() == SetCell(b, cell, last.value)
    modifies g, g.grid.inner
    ensures g.Valid() && g.Board() == SetCell(b, cell, attempt)
    ensures NoPeerConflicts(b) ==> NoPeerConflicts(g.Board())
  {
    if last.Some? {
      AttemptPassesGate(b, cell, attempt, last.value);
    }
    var out := g.SetValue(cell, attempt, false);
    assert out.Pass?;
    if last.Some? {
      SetCellTwice(b, cell, last.value, attempt);
    }
    if NoPeerConflicts(b) {
      WriteKeepsNoConflicts(b, cell, attempt);
    }
  }

  /** The end of `solver_aux` after every attempt failed: `empty_cell` gives back `b`. */
  method ClearAttempt(g: ConstraintPropagationSudokuGrid, cell: Cell, ghost b: Board, ghost last: Option<int>)
    requires g.Valid() && Value(b, cell) == g.grid.marker
    requires last.None? ==> g.Board() == b
    requires last.Some? ==> g.Board() == SetCell(b, cell, last.value)
    modifies g, g.grid.inner
    ensures g.Valid() && g.Board() == b
  {
    g.EmptyCell(cell);
    if last.Some? {
      SetCellRestore(b, cell, last.value);
    } else {
      SetCellSame(b, cell);
    }
  }

  /**
   * `solver_aux`. `target` is the empty cell to fill with a snapshot of its
   * domain, or None when no empty cell is left. The grid is shared and
   * updated in place; the returned grid is always `g` itself.
   */
  method SolverAux(g: ConstraintPropagationSudokuGrid, target: Option<Choice>)
      returns (solved: bool, solution: ConstraintPropagationSudokuGrid)
    requires g.Valid()
    requires target.None? ==> BoardFull(g.Board(), g.grid.marker)
    requires target.Some? ==> Value(g.Board(), target.value.cell) == g.grid.marker
    requires target.Some? ==> target.value.domain == CalculateCellDomain(g.Board(), target.value.cell)
    modifies g, g.grid.inner
    decreases |EmptyCells(g.Board(), g.grid.marker)|
    ensures g.Valid() && solution == g
    ensures solved ==> IsCompletion(old(g.Board()), g.grid.marker, g.Board())
    ensures !solved ==> g.Board() == old(g.Board()) && !HasCompletion(old(g.Board()), g.grid.marker)
    ensures NoPeerConflicts(old(g.Board())) ==> NoPeerConflicts(g.Board())
  {
    ghost var b := g.Board();
    ghost var m := g.grid.marker;
    if target.None? {
      solved := IsSolutionCorrect(g.grid);
      forall s ensures IsCompletion(b, m, s) <==> s == b && SolutionCorrect(b, m) {
        FullBoardCompletion(b, m, s);
      }
      return solved, g;
    }
    var cell, domain := target.value.cell, target.value.domain;
    if |domain| == 0 {
      forall s | IsCompletion(b, m, s) ensures false {
        CompletionValueInDomain(b, m, s, cell);
      }
      return false, g;
    }
    forall s | IsCompletion(b, m, s) ensures Value(s, cell) in domain {
      CompletionValueInDomain(b, m, s, cell);
    }
    var remaining := domain;
    ghost var last: Option<int> := None;
    while remaining != {}
      invariant g.Valid()
      invariant remaining <= domain
      invariant last.None? ==> g.Board() == b
      invariant last.Some? ==> last.value in domain - remaining && g.Board() == SetCell(b, cell, last.value)
      invariant forall s :: IsCompletion(b, m, s) ==> Value(s, cell) in remaining
      invariant NoPeerConflicts(b) ==> NoPeerConflicts(g.Board())
      decreases |remaining|
    {
      var attempt :| attempt in remaining;
      PlaceAttempt(g, cell, attempt, b, last);
      DigitsAreDigits(attempt);
      FillingShrinksEmptyCells(b, m, cell, attempt);
      var next := g.GetMinimumDomainEmptyCell();
      var nextSolved, _ := SolverAux(g, next);
      if nextSolved {
        CompletionBeforeWrite(b, m, g.Board(), cell, attempt);
        GridValidIffNoPeerConflicts(g.Board());
        return true, g;
      }

      forall s | IsCompletion(b, m, s) ensures Value(s, cell) != attempt {
        if Value(s, cell) == attempt {
          CompletionAfterWrite(b, m, s, cell);
        }
      }
      remaining := remaining - {attempt};
      last := Some(attempt);
    }
    ClearAttempt(g, cell, b, last);
    return false, g;
  }

  /**
   * `bt_cp_sudoku_solver`: the search runs on a constraint-propagation copy
   * of `sudoku`, so the caller's grid is never written. The result is a
   * solved grid exactly when the puzzle has a completion.
   */
  method BtCpSudokuSolver(sudoku: SudokuGrid) returns (result: Option<ConstraintPropagationSudokuGrid>)
    requires sudoku.Valid()
    ensures result.Some? <==> HasCompletion(sudoku.Board(), sudoku.marker)
    ensures result.Some? ==> result.value.Valid() && result.value.grid.marker == sudoku.marker
    ensures result.Some? ==> IsCompletion(sudoku.Board(), sudoku.marker, result.value.Board())
    ensures result.Some? ==> fresh(result.value.grid.inner)
  {
    var cpGrid := ConstraintPropagationSudokuGrid.FromSudokuGrid(sudoku);
    var start := cpGrid.GetMinimumDomainEmptyCell();
    var solved, solution := SolverAux(cpGrid, start);
    var correct := IsSolutionCorrect(solution.grid);
    if correct && solved {
      return Some(solution);
    }
    return None;
  }
}
