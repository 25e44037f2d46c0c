/**
 * The constraint-propagation grid: the base grid plus a candidate set (domain)
 * for each of the 81 cells, kept equal to the domain computed from the grid's
 * values after construction and after every write or clear.
 */
module SudokuCP {
  import opened Wrappers
  import opened SudokuBase

  /** The peers of `c` (its row, column and square, `c` included), as `_get_affected_cells` computes them. */
  function AffectedCells(c: Cell): (s: set<Cell>)
    ensures forall p :: p in s <==> Peers(p, c)
  {
    var rowCells := set i: int | 0 <= i < 9 :: Cell(c.row, i);
    var colCells := set i: int | 0 <= i < 9 :: Cell(i, c.col);
    var r0, c0 := SquareStart(c.row), SquareStart(c.col);
    var squareCells := set i: int, j: int | r0 <= i < r0 + 3 && c0 <= j < c0 + 3 :: Cell(i, j);
    assert forall p :: Peers(p, c) ==> p in rowCells + colCells + squareCells by {
      forall p | Peers(p, c) ensures p in rowCells + colCells + squareCells {
        if p.row == c.row {
          assert p == Cell(c.row, p.col);
        } else if p.col == c.col {
          assert p == Cell(p.row, c.col);
        } else {
          assert p == Cell(p.row, p.col);
        }
      }
    }
    rowCells + colCells + squareCells
  }

  /** The `t`-th number from `lo` upwards that is not `skip`. */
  function Skipping(lo: int, skip: int, t: int): int {
    if lo + t < skip then lo + t else lo + t + 1
  }

  /**
   * Entry `k` of the peers of `c` listed once each: its row first, then the
   * rest of its column, then the four square cells sharing neither its row
   * nor its column.
   */
  function PeerAt(c: Cell, k: int): (p: Cell)
    requires 0 <= k < 21
    ensures k < 9 ==> p == Cell(c.row, k)
    ensures 9 <= k < 17 ==> p == Cell(Skipping(0, c.row, k - 9), c.col)
    ensures 17 <= k ==>
              p == Cell(Skipping(SquareStart(c.row), c.row, (k - 17) / 2), Skipping(SquareStart(c.col), c.col, (k - 17) % 2))
  {
    if k < 9 then Cell(c.row, k)
    else if k < 17 then Cell(Skipping(0, c.row, k - 9), c.col)
    else Cell(Skipping(SquareStart(c.row), c.row, (k - 17) / 2), Skipping(SquareStart(c.col), c.col, (k - 17) % 2))
  }

  function PeerList(c: Cell): (s: seq<Cell>)
    ensures |s| == 21
  {
    seq(21, k requires 0 <= k < 21 => PeerAt(c, k))
  }

  /** A sequence without repetitions has as many distinct elements as entries. */
  lemma {:induction false} DistinctSeqSize(s: seq<Cell>)
    requires forall i, j :: 0 <= i < j < |s| ==> s[i] != s[j]
    ensures |set x | x in s| == |s|
  {
    if s != [] {
      DistinctSeqSize(s[1..]);
      assert (set x | x in s) == {s[0]} + (set x | x in s[1..]);
    }
  }

  lemma {:induction false} PeerListDistinct(c: Cell)
    ensures forall i, j :: 0 <= i < j < 21 ==> PeerList(c)[i] != PeerList(c)[j]
  {
    var s := PeerList(c);
    forall i, j | 0 <= i < j < 21 ensures s[i] != s[j] {
      assert PeerList(c)[i] == PeerAt(c, i);
      assert PeerList(c)[j] == PeerAt(c, j);
    }
  }

  /** A square peer sharing neither the row nor the column of `c` is among the last four entries. */
  lemma SquarePeerInPeerList(c: Cell, p: Cell)
    requires SameSquare(p, c) && p.row != c.row && p.col != c.col
    ensures p in PeerList(c)
  {
    var r0, c0 := SquareStart(c.row), SquareStart(c.col);
    var ti := if p.row < c.row then p.row - r0 else p.row - r0 - 1;
    var tj := if p.col < c.col then p.col - c0 else p.col - c0 - 1;
    assert PeerList(c)[17 + 2 * ti + tj] == PeerAt(c, 17 + 2 * ti + tj);
  }

  lemma {:induction false} PeerListHoldsPeers(c: Cell)
    ensures forall p :: p in PeerList(c) <==> Peers(p, c)
  {
    var s := PeerList(c);
    forall p | Peers(p, c) ensures p in s {
      if p.row == c.row {
        assert PeerList(c)[p.col] == PeerAt(c, p.col);
      } else if p.col == c.col {
        var k := 9 + if p.row < c.row then p.row else p.row - 1;
        assert PeerList(c)[k] == PeerAt(c, k);
      } else {
        SquarePeerInPeerList(c, p);
      }
    }
    forall k | 0 <= k < 21 ensures Peers(s[k], c) {
      assert PeerList(c)[k] == PeerAt(c, k);
    }
  }

  /** A cell has 21 peers, itself included: 9 in its row, 8 more in its column, 4 more in its square. */
  lemma {:induction false} AffectedCellsCount(c: Cell)
    ensures |AffectedCells(c)| == 21
  {
    var s := PeerList(c);
    PeerListDistinct(c);
    DistinctSeqSize(s);
    PeerListHoldsPeers(c);
    assert AffectedCells(c) == set x | x in s;
  }

  /**
   * `_calculate_cell_domain`: the numbers 1..9 that occur neither in the
   * cell's row, nor in its square, nor in its column. Python builds it as the
   * intersection of three set differences; `DomainIsIntersection` shows the
   * two forms agree.
   */
  function CalculateCellDomain(b: Board, c: Cell): (d: set<int>)
    ensures d <= Digits
  {
    set v | 1 <= v <= 9 && v !in RowValues(b, c.row) && v !in SquareValues(b, c) && v !in ColumnValues(b, c.col)
  }

  /** The domain is `(1..9 - set(row)) & (1..9 - set(square)) & (1..9 - set(column))`, as Python computes it. */
  lemma DomainIsIntersection(b: Board, c: Cell)
    ensures CalculateCellDomain(b, c) ==
              (Digits - set x | x in RowValues(b, c.row))
              * (Digits - set x | x in SquareValues(b, c))
              * (Digits - set x | x in ColumnValues(b, c.col))
  {
  }

  lemma NotInRowIff(b: Board, c: Cell, v: int)
    ensures v !in RowValues(b, c.row) <==> forall p: Cell :: p.row == c.row ==> Value(b, p) != v
  {
    if v in RowValues(b, c.row) {
      var k :| 0 <= k < 9 && RowValues(b, c.row)[k] == v;
      assert Value(b, Cell(c.row, k)) == v;
    }
  }

  lemma NotInColumnIff(b: Board, c: Cell, v: int)
    ensures v !in ColumnValues(b, c.col) <==> forall p: Cell :: p.col == c.col ==> Value(b, p) != v
  {
    if v in ColumnValues(b, c.col) {
      var k :| 0 <= k < 9 && ColumnValues(b, c.col)[k] == v;
      assert Value(b, Cell(k, c.col)) == v;
    }
  }

  lemma NotInSquareIff(b: Board, c: Cell, v: int)
    ensures v !in SquareValues(b, c) <==> forall p :: SameSquare(p, c) ==> Value(b, p) != v
  {
    var sq := SquareValues(b, c);
    if v in sq {
      var k :| 0 <= k < 9 && sq[k] == v;
      assert Value(b, SquareCell(c, k)) == v;
    } else {
      forall p | SameSquare(p, c) ensures Value(b, p) != v {
        assert sq[SquarePosition(c, p)] == Value(b, p);
      }
    }
  }

  /** A value is a candidate for `c` iff it is a digit that no peer of `c` holds. */
  lemma InDomainIff(b: Board, c: Cell, v: int)
    ensures v in CalculateCellDomain(b, c) <==> IsDigit(v) && forall p :: Peers(p, c) ==> Value(b, p) != v
  {
    DigitsAreDigits(v);
    NotInRowIff(b, c, v);
    NotInColumnIff(b, c, v);
    NotInSquareIff(b, c, v);
  }

  /**
   * Filling an empty cell `c` with `v` removes `v` from the domains of the
   * peers of `c` and changes no other domain: the incremental update of
   * `set_value` is exact.
   */
  lemma DomainAfterWrite(b: Board, c: Cell, v: int, p: Cell)
    requires !IsDigit(Value(b, c))
    ensures CalculateCellDomain(SetCell(b, c, v), p) ==
              if Peers(p, c) then CalculateCellDomain(b, p) - {v} else CalculateCellDomain(b, p)
  {
    var b' := SetCell(b, c, v);
    forall u
      ensures u in CalculateCellDomain(b', p) <==>
                u in (if Peers(p, c) then CalculateCellDomain(b, p) - {v} else CalculateCellDomain(b, p))
    {
      InDomainIff(b', p, u);
      InDomainIff(b, p, u);
      if Peers(p, c) && IsDigit(u) && u != v {
        assert (forall q :: Peers(q, p) ==> Value(b', q) != u) <==> (forall q :: Peers(q, p) ==> Value(b, q) != u);
      }
    }
  }

  /** A write to `c` leaves the domain of every cell outside the peers of `c` as it was. */
  lemma DomainOfNonPeerUnchanged(b: Board, c: Cell, v: int, p: Cell)
    requires !Peers(p, c)
    ensures CalculateCellDomain(SetCell(b, c, v), p) == CalculateCellDomain(b, p)
  {
    var b' := SetCell(b, c, v);
    forall u ensures u in CalculateCellDomain(b', p) <==> u in CalculateCellDomain(b, p) {
      InDomainIff(b', p, u);
      InDomainIff(b, p, u);
    }
  }

  /**
   * If the stored domains matched the board before an empty cell `c` was
   * filled with `v`, removing `v` from the peers' domains makes them match
   * the new board.
   */
  lemma RemovalKeepsDomainsConsistent(b: Board, c: Cell, v: int, before: map<Cell, set<int>>, after: map<Cell, set<int>>)
    requires !IsDigit(Value(b, c))
    requires forall p :: p in before && before[p] == CalculateCellDomain(b, p)
    requires forall p :: p in after && after[p] == if Peers(p, c) then before[p] - {v} else before[p]
    ensures forall p :: after[p] == CalculateCellDomain(SetCell(b, c, v), p)
  {
    forall p ensures after[p] == CalculateCellDomain(SetCell(b, c, v), p) {
      DomainAfterWrite(b, c, v, p);
    }
  }

  /**
   * If the stored domains matched the board before cell `c` was cleared,
   * recomputing the peers' domains makes all of them match the new board.
   */
  lemma RecomputationKeepsDomainsConsistent(b: Board, c: Cell, m: int, before: map<Cell, set<int>>, after: map<Cell, set<int>>)
    requires forall p :: p in before && before[p] == CalculateCellDomain(b, p)
    requires forall p :: p in after && after[p] ==
               if Peers(p, c) then CalculateCellDomain(SetCell(b, c, m), p) else before[p]
    ensures forall p :: after[p] == CalculateCellDomain(SetCell(b, c, m), p)
  {
    forall p | !Peers(p, c) ensures after[p] == CalculateCellDomain(SetCell(b, c, m), p) {
      DomainOfNonPeerUnchanged(b, c, m, p);
    }
  }

  /**
   * Filling an empty cell and clearing it again gives back the board, so
   * every domain, stored or computed, is the one it was before.
   */
  lemma FillThenClearRestoresDomains(b: Board, c: Cell, v: int)
    ensures forall p :: CalculateCellDomain(SetCell(SetCell(b, c, v), c, Value(b, c)), p) == CalculateCellDomain(b, p)
  {
    SetCellRestore(b, c, v);
  }

  /** An empty cell, with a copy of its domain, as `get_minimum_domain_empty_cell` returns it. */
  datatype Choice = Choice(cell: Cell, domain: set<int>)

  /** Rows up to `row`, and row `row` up to column `col`, in row-major order. */
  predicate Scanned(p: Cell, row: int, col: int) {
    p.row < row || (p.row == row && p.col < col)
  }

  /**
   * `ch` is an empty cell whose domain is no larger than any other empty
   * cell's, and strictly smaller than every empty cell before it in
   * row-major order (the first minimum wins).
   */
  ghost predicate IsMinimumChoice(b: Board, m: int, ch: Choice) {
    && Value(b, ch.cell) == m
    && ch.domain == CalculateCellDomain(b, ch.cell)
    && (forall p :: Value(b, p) == m ==> |ch.domain| <= |CalculateCellDomain(b, p)|)
    && (forall p :: Value(b, p) == m && CellIndex(p) < CellIndex(ch.cell) ==>
          |ch.domain| < |CalculateCellDomain(b, p)|)
  }

  /** The same for the largest domain (the first maximum wins). */
  ghost predicate IsMaximumChoice(b: Board, m: int, ch: Choice) {
    && Value(b, ch.cell) == m
    && ch.domain == CalculateCellDomain(b, ch.cell)
    && (forall p :: Value(b, p) == m ==> |CalculateCellDomain(b, p)| <= |ch.domain|)
    && (forall p :: Value(b, p) == m && CellIndex(p) < CellIndex(ch.cell) ==>
          |CalculateCellDomain(b, p)| < |ch.domain|)
  }

  /**
   * ConstraintPropagationSudokuGrid. Python makes it a subclass of SudokuGrid;
   * here it owns its base grid, `grid`, and calls the base operations on it.
   */
  class ConstraintPropagationSudokuGrid {
    const grid: SudokuGrid
    var cellDomains: map<Cell, set<int>>
    var affectedCellsCache: map<Cell, set<Cell>>

    /** Every cell has a domain, and every cached peer set is the one computed afresh. */
    ghost predicate Wellformed()
      reads this
    {
      && grid.Valid()
      && (forall p: Cell :: p in cellDomains)
      && (forall k, p :: k in affectedCellsCache ==> (p in affectedCellsCache[k] <==> Peers(p, k)))
    }

    /** The central invariant: each stored domain is the domain computed from the grid. */
    ghost predicate Valid()
      reads this, grid.inner
    {
      && Wellformed()
      && (forall p :: cellDomains[p] == CalculateCellDomain(grid.Board(), p))
    }

    function Board(): Board
      reads grid.inner
      requires grid.Valid()
    {
      grid.Board()
    }

    constructor (startingGrid: array2<int>, emptyCellMarker: int := DefaultEmptyCellMarker)
      requires startingGrid.Length0 == 9 && startingGrid.Length1 == 9 && !IsDigit(emptyCellMarker)
      ensures Valid() && fresh(grid)
      ensures grid.inner == startingGrid && grid.marker == emptyCellMarker
      ensures affectedCellsCache == map[]
    {
      var g := new SudokuGrid(startingGrid, emptyCellMarker);
      var b := g.Board();
      var domains: map<Cell, set<int>> := map[];
      for row := 0 to 9
        invariant forall p :: p in domains <==> Scanned(p, row, 0)
        invariant forall p :: p in domains ==> domains[p] == CalculateCellDomain(b, p)
      {
        for col := 0 to 9
          invariant forall p :: p in domains <==> Scanned(p, row, col)
          invariant forall p :: p in domains ==> domains[p] == CalculateCellDomain(b, p)
        {
          var currentCell := Cell(row, col);
          var cellDomain := CalculateCellDomain(b, currentCell);
          domains := domains[currentCell := cellDomain];
        }
      }
      grid := g;
      cellDomains := domains;
      affectedCellsCache := map[];
    }

    /** Construction through the base constructor's checks. */
    static method Create(startingGrid: array2<int>, emptyCellMarker: int := DefaultEmptyCellMarker)
      returns (r: Result<ConstraintPropagationSudokuGrid, Error>)
      ensures !(startingGrid.Length0 == 9 && startingGrid.Length1 == 9) ==> r == Failure(NotNineByNine)
      ensures startingGrid.Length0 == 9 && startingGrid.Length1 == 9 && IsDigit(emptyCellMarker) ==>
                r == Failure(MarkerIsDigit)
      ensures r.Success? <==> startingGrid.Length0 == 9 && startingGrid.Length1 == 9 && !IsDigit(emptyCellMarker)
      ensures r.Success? ==> fresh(r.value) && fresh(r.value.grid) && r.value.Valid()
                             && r.value.grid.inner == startingGrid && r.value.grid.marker == emptyCellMarker
    {
      if !(startingGrid.Length0 == 9 && startingGrid.Length1 == 9) {
        return Failure(NotNineByNine);
      }
      if emptyCellMarker in [1, 2, 3, 4, 5, 6, 7, 8, 9] {
        return Failure(MarkerIsDigit);
      }
      var g := new ConstraintPropagationSudokuGrid(startingGrid, emptyCellMarker);
      r := Success(g);
    }

    /** `from_sudoku_grid`: a new grid over a deep copy of `source`'s array. */
    static method FromSudokuGrid(source: SudokuGrid) returns (r: ConstraintPropagationSudokuGrid)
      requires source.Valid()
      ensures fresh(r) && fresh(r.grid) && fresh(r.grid.inner)
      ensures r.Valid() && r.Board() == source.Board() && r.grid.marker == source.marker
    {
      var copy := source.GetInnerGridCopy();
      r := new ConstraintPropagationSudokuGrid(copy, source.marker);
    }

    /** `_get_affected_cells`: the peer set of a cell, remembered in the cache on first request. */
    method GetAffectedCells(cellToUpdate: Cell) returns (affected: set<Cell>)
      requires Wellformed()
      modifies this`affectedCellsCache
      ensures Wellformed()
      ensures forall p :: p in affected <==> Peers(p, cellToUpdate)
      ensures affectedCellsCache.Keys == old(affectedCellsCache.Keys) + {cellToUpdate}
    {
      if cellToUpdate in affectedCellsCache {
        return affectedCellsCache[cellToUpdate];
      }
      affected := AffectedCells(cellToUpdate);
      affectedCellsCache := affectedCellsCache[cellToUpdate := affected];
    }

    /** `_remove_from_affected_domains`: takes `val` out of every peer's domain. */
    method RemoveFromAffectedDomains(val: int, cellToUpdate: Cell)
      requires Wellformed()
      modifies this`cellDomains, this`affectedCellsCache
      ensures Wellformed()
      ensures forall p :: cellDomains[p] ==
                if Peers(p, cellToUpdate) then old(cellDomains[p]) - {val} else old(cellDomains[p])
    {
      var affectedCells := GetAffectedCells(cellToUpdate);
      var todo := affectedCells;
      while todo != {}
        invariant Wellformed()
        invariant todo <= affectedCells
        invariant forall p :: cellDomains[p] ==
                    if p in affectedCells - todo then old(cellDomains[p]) - {val} else old(cellDomains[p])
        decreases todo
      {
        var c :| c in todo;
        if val in cellDomains[c] {
          cellDomains := cellDomains[c := cellDomains[c] - {val}];
        }
        todo := todo - {c};
      }
    }

    /** `_recalculate_affected_domains`: recomputes every peer's domain from the grid. */
    method RecalculateAffectedDomains(cellToUpdate: Cell)
      requires Wellformed()
      modifies this`cellDomains, this`affectedCellsCache
      ensures Wellformed()
      ensures forall p :: cellDomains[p] ==
                if Peers(p, cellToUpdate) then CalculateCellDomain(Board(), p) else old(cellDomains[p])
    {
      ghost var b := Board();
      var affectedCells := GetAffectedCells(cellToUpdate);
      var todo := affectedCells;
      while todo != {}
        invariant Wellformed()
        invariant todo <= affectedCells
        invariant forall p :: cellDomains[p] ==
                    if p in affectedCells - todo then CalculateCellDomain(b, p) else old(cellDomains[p])
        decreases todo
      {
        var c :| c in todo;
        var newDomain := CalculateCellDomain(Board(), c);
        cellDomains := cellDomains[c := newDomain];
        todo := todo - {c};
      }
    }

    /** `set_value`: the domain gate, then (without `overwrite`) a clear, the base write, and propagation. */
    method SetValue(cell: Cell, val: int, overwrite: bool := true) returns (out: Outcome<Error>)
      requires Valid()
      modifies this, grid.inner
      ensures Valid()
      ensures val !in old(cellDomains[cell]) ==> out == Fail(NotInDomain(cell, old(cellDomains[cell]), val))
      ensures val in old(cellDomains[cell]) && overwrite && Value(old(Board()), cell) != grid.marker ==>
                out == Fail(NonEmptyCellWrite(cell))
      ensures out.Pass? <==> val in old(cellDomains[cell]) && !(overwrite && Value(old(Board()), cell) != grid.marker)
      ensures out.Fail? ==> Board() == old(Board()) && cellDomains == old(cellDomains)
      ensures out.Pass? ==> Board() == SetCell(old(Board()), cell, val)
      ensures out.Pass? && Value(old(Board()), cell) == grid.marker ==>
                forall p :: cellDomains[p] == if Peers(p, cell) then old(cellDomains[p]) - {val} else old(cellDomains[p])
      ensures forall p :: !Peers(p, cell) ==> cellDomains[p] == old(cellDomains[p])
    {
      if val !in cellDomains[cell] {
        return Fail(NotInDomain(cell, cellDomains[cell], val));
      }
      DigitsAreDigits(val);
      if !overwrite {
        EmptyCell(cell);
      }
      ghost var cleared := Board();
      out := grid.SetValue(cell, val, overwrite);
      if out.Fail? {
        return;
      }
      ghost var domainsBefore := cellDomains;
      RemoveFromAffectedDomains(val, cell);
      RemovalKeepsDomainsConsistent(cleared, cell, val, domainsBefore, cellDomains);
      if !overwrite {
        SetCellTwice(old(Board()), cell, grid.marker, val);
      }
    }

    /** `empty_cell`: puts the marker in; if a digit was there, recomputes every peer's domain. */
    method EmptyCell(cell: Cell)
      requires Valid()
      modifies this, grid.inner
      ensures Valid()
      ensures Board() == SetCell(old(Board()), cell, grid.marker)
      ensures Value(old(Board()), cell) == grid.marker ==> cellDomains == old(cellDomains)
      ensures forall p :: !Peers(p, cell) ==> cellDomains[p] == old(cellDomains[p])
    {
      var previousValue := grid.GetValue(cell);
      grid.EmptyCell(cell);
      if previousValue != grid.marker {
        RecalculateAffectedDomains(cell);
        RecomputationKeepsDomainsConsistent(old(Board()), cell, grid.marker, old(cellDomains), cellDomains);
      } else {
        SetCellSame(old(Board()), cell);
      }
    }

    /** `get_domain`: a copy of the stored domain, which is the domain computed from the grid. */
    function GetDomain(cell: Cell): (d: set<int>)
      reads this, grid.inner
      requires Valid()
      ensures d == CalculateCellDomain(Board(), cell)
    {
      cellDomains[cell]
    }

    /**
     * `get_minimum_domain_empty_cell`: Python filters the domain dictionary,
     * whose keys were inserted in row-major order, and takes the first item of
     * smallest domain size; the scan below visits the cells in that order.
     */
    method GetMinimumDomainEmptyCell() returns (choice: Option<Choice>)
      requires Valid()
      ensures choice.None? <==> BoardFull(Board(), grid.marker)
      ensures choice.Some? ==> IsMinimumChoice(Board(), grid.marker, choice.value)
    {
      ghost var b := Board();
      var found := false;
      var minCell := Cell(0, 0);
      var minDomain: set<int> := {};
      for i := 0 to 81
        invariant !found ==> forall p :: CellIndex(p) < i ==> Value(b, p) != grid.marker
        invariant found ==> Value(b, minCell) == grid.marker && minDomain == CalculateCellDomain(b, minCell)
        invariant found ==> CellIndex(minCell) < i
        invariant found ==> forall p :: CellIndex(p) < i && Value(b, p) == grid.marker ==>
                                       |minDomain| <= |CalculateCellDomain(b, p)|
        invariant found ==> forall p :: CellIndex(p) < CellIndex(minCell) && Value(b, p) == grid.marker ==>
                                       |minDomain| < |CalculateCellDomain(b, p)|
      {
        var cell := CellAt(i);
        forall p | CellIndex(p) == i ensures p == cell {
          CellIndexInjective(p, cell);
        }
        if grid.GetValue(cell) == grid.marker {
          if !found || |cellDomains[cell]| < |minDomain| {
            found, minCell, minDomain := true, cell, cellDomains[cell];
          }
        }
      }
      if found {
        choice := Some(Choice(minCell, minDomain));
      } else {
        choice := None;
      }
    }

    /** `get_maximum_domain_empty_cell`: as above, with the first largest domain. */
    method GetMaximumDomainEmptyCell() returns (choice: Option<Choice>)
      requires Valid()
      ensures choice.None? <==> BoardFull(Board(), grid.marker)
      ensures choice.Some? ==> IsMaximumChoice(Board(), grid.marker, choice.value)
    {
      ghost var b := Board();
      var found := false;
      var maxCell := Cell(0, 0);
      var maxDomain: set<int> := {};
      for i := 0 to 81
        invariant !found ==> forall p :: CellIndex(p) < i ==> Value(b, p) != grid.marker
        invariant found ==> Value(b, maxCell) == grid.marker && maxDomain == CalculateCellDomain(b, maxCell)
        invariant found ==> CellIndex(maxCell) < i
        invariant found ==> forall p :: CellIndex(p) < i && Value(b, p) == grid.marker ==>
                                       |CalculateCellDomain(b, p)| <= |maxDomain|
        invariant found ==> forall p :: CellIndex(p) < CellIndex(maxCell) && Value(b, p) == grid.marker ==>
                                       |CalculateCellDomain(b, p)| < |maxDomain|
      {
        var cell := CellAt(i);
        forall p | CellIndex(p) == i ensures p == cell {
          CellIndexInjective(p, cell);
        }
        if grid.GetValue(cell) == grid.marker {
          if !found || |cellDomains[cell]| > |maxDomain| {
            found, maxCell, maxDomain := true, cell, cellDomains[cell];
          }
        }
      }
      if found {
        choice := Some(Choice(maxCell, maxDomain));
      } else {
        choice := None;
      }
    }
  }

  /** Two domain maps that both match the computed domains of one board are the same map. */
  lemma ConsistentDomainsAgree(b: Board, d: map<Cell, set<int>>, e: map<Cell, set<int>>)
    requires forall p :: p in d && d[p] == CalculateCellDomain(b, p)
    requires forall p :: p in e && e[p] == CalculateCellDomain(b, p)
    ensures d == e
  {
    assert d.Keys == e.Keys;
  }

  /**
   * `set_value` on an empty cell with a candidate, then `empty_cell` on it:
   * the grid and every stored domain are back to what they were.
   */
  method FillThenClear(g: ConstraintPropagationSudokuGrid, cell: Cell, val: int)
    requires g.Valid() && Value(g.Board(), cell) == g.grid.marker
    modifies g, g.grid.inner
    ensures g.Valid()
    ensures val in old(g.cellDomains[cell]) ==> g.Board() == old(g.Board()) && g.cellDomains == old(g.cellDomains)
  {
    ghost var b, domains := g.Board(), g.cellDomains;
    var out := g.SetValue(cell, val);
    if out.Pass? {
      g.EmptyCell(cell);
      SetCellRestore(b, cell, val);
      assert g.Board() == b;
      ConsistentDomainsAgree(b, g.cellDomains, domains);
    }
  }
}
