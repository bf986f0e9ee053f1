/**
 * Whole-grid gap detection (`detectGaps`) and the "truly perfect" test
 * (`isTrulyPerfect`) that pattern selection uses.
 *
 * A row is a gap row when, inside the grid, it has both a covered and an
 * uncovered cell and it is not the last row. `DetectGaps` is the declarative
 * definition; `ScanGaps` is the source's algorithm (paint a boolean grid, then
 * scan it row by row) and is proved to compute the same report.
 */
module Gaps {
  import opened Patterns
  import opened Simulation

  datatype GapReport = GapReport(hasGaps: bool, gapRows: set<nat>)

  /** Some item covers cell (row, col). */
  predicate Covered(items: seq<GridItem>, row: nat, col: nat) {
    exists i :: 0 <= i < |items| && Covers(items[i], row, col)
  }

  /** Row `row` has an uncovered cell among the first `numColumns` columns. */
  predicate RowHasEmpty(items: seq<GridItem>, row: nat, numColumns: nat) {
    exists c :: 0 <= c < numColumns && !Covered(items, row, c)
  }

  /** Row `row` has a covered cell among the first `numColumns` columns. */
  predicate RowHasFilled(items: seq<GridItem>, row: nat, numColumns: nat) {
    exists c :: 0 <= c < numColumns && Covered(items, row, c)
  }

  /** A partly filled row that is not the last one. */
  predicate Flagged(items: seq<GridItem>, totalRows: nat, numColumns: nat, row: nat) {
    row + 1 < totalRows && RowHasEmpty(items, row, numColumns) && RowHasFilled(items, row, numColumns)
  }

  function DetectGaps(allItems: seq<GridItem>, totalRows: nat, numColumns: nat): (report: GapReport)
    ensures forall r :: r in report.gapRows ==> r + 1 < totalRows
    ensures report.hasGaps <==> exists r :: r in report.gapRows
  {
    var gapRows := set r: nat | r < totalRows && Flagged(allItems, totalRows, numColumns, r);
    GapReport(|gapRows| > 0, gapRows)
  }

  /** A row with nothing in it inside the grid is never a gap row. */
  lemma EmptyRowNotFlagged(items: seq<GridItem>, totalRows: nat, numColumns: nat, row: nat)
    requires forall c :: 0 <= c < numColumns ==> !Covered(items, row, c)
    ensures row !in DetectGaps(items, totalRows, numColumns).gapRows
  {
  }

  /** An item that covers no cell inside the rows and columns does not change the report. */
  lemma OutsideCellsIgnored(items: seq<GridItem>, x: GridItem, totalRows: nat, numColumns: nat)
    requires forall r: nat, c: nat :: r < totalRows && c < numColumns ==> !Covers(x, r, c)
    ensures DetectGaps(items + [x], totalRows, numColumns) == DetectGaps(items, totalRows, numColumns)
  {
    var more := items + [x];
    forall r: nat, c: nat | r < totalRows && c < numColumns
      ensures Covered(more, r, c) <==> Covered(items, r, c)
    {
      if Covered(items, r, c) {
        var i :| 0 <= i < |items| && Covers(items[i], r, c);
        assert more[i] == items[i];
      }
      if Covered(more, r, c) {
        var i :| 0 <= i < |more| && Covers(more[i], r, c);
        assert i < |items| && more[i] == items[i];
      }
    }
    forall r: nat | r < totalRows
      ensures Flagged(more, totalRows, numColumns, r) <==> Flagged(items, totalRows, numColumns, r)
    {
      assert RowHasEmpty(more, r, numColumns) <==> RowHasEmpty(items, r, numColumns);
      assert RowHasFilled(more, r, numColumns) <==> RowHasFilled(items, r, numColumns);
    }
    var before, after := DetectGaps(items, totalRows, numColumns), DetectGaps(more, totalRows, numColumns);
    assert after.gapRows == before.gapRows;
  }

  // ---------------------------------------------------------------------------
  // The source's algorithm
  // ---------------------------------------------------------------------------

  lemma CoveredAppend(items: seq<GridItem>, k: nat, row: nat, col: nat)
    requires k < |items|
    ensures Covered(items[..k + 1], row, col) <==> Covered(items[..k], row, col) || Covers(items[k], row, col)
  {
    var pre, post := items[..k], items[..k + 1];
    assert forall i :: 0 <= i < k ==> post[i] == pre[i];
    assert post[k] == items[k];
    if Covered(post, row, col) {
      var i :| 0 <= i < |post| && Covers(post[i], row, col);
      if i < k {
        assert Covers(pre[i], row, col);
      }
    }
  }

  predicate GridShape(grid: seq<seq<bool>>, totalRows: nat, numColumns: nat) {
    |grid| == totalRows && forall r :: 0 <= r < totalRows ==> |grid[r]| == numColumns
  }

  /** Paints every in-grid cell each item covers, as the source's grid-building loops do. */
  method PaintGrid(items: seq<GridItem>, totalRows: nat, numColumns: nat) returns (grid: seq<seq<bool>>)
    ensures GridShape(grid, totalRows, numColumns)
    ensures forall r, c :: 0 <= r < totalRows && 0 <= c < numColumns ==> (grid[r][c] <==> Covered(items, r, c))
  {
    grid := seq(totalRows, _ => seq(numColumns, _ => false));
    var k := 0;
    while k < |items|
      invariant k <= |items|
      invariant GridShape(grid, totalRows, numColumns)
      invariant forall r, c :: 0 <= r < totalRows && 0 <= c < numColumns ==>
        (grid[r][c] <==> Covered(items[..k], r, c))
    {
      var item := items[k];
      var dr := 0;
      while dr < item.rowSpan
        invariant dr <= item.rowSpan
        invariant GridShape(grid, totalRows, numColumns)
        invariant forall r, c :: 0 <= r < totalRows && 0 <= c < numColumns ==>
          (grid[r][c] <==> Covered(items[..k], r, c) || (Covers(item, r, c) && r < item.row + dr))
      {
        var dc := 0;
        while dc < item.colSpan
          invariant dc <= item.colSpan
          invariant GridShape(grid, totalRows, numColumns)
          invariant forall r, c :: 0 <= r < totalRows && 0 <= c < numColumns ==>
            (grid[r][c] <==> (Covered(items[..k], r, c) ||
              (Covers(item, r, c) && (r < item.row + dr || (r == item.row + dr && c < item.col + dc)))))
        {
          var row, col := item.row + dr, item.col + dc;
          if row < totalRows && col < numColumns {
            grid := grid[row := grid[row][col := true]];
          }
          dc := dc + 1;
        }
        dr := dr + 1;
      }
      forall r, c | 0 <= r < totalRows && 0 <= c < numColumns
        ensures grid[r][c] <==> Covered(items[..k + 1], r, c)
      {
        CoveredAppend(items, k, r, c);
      }
      k := k + 1;
    }
    assert items[..|items|] == items;
  }

  /** Scans one painted row for an empty and a filled cell. */
  method ScanRow(grid: seq<seq<bool>>, allItems: seq<GridItem>, totalRows: nat, numColumns: nat, r: nat)
    returns (hasEmptySlot: bool, hasFilledSlot: bool)
    requires GridShape(grid, totalRows, numColumns) && r < totalRows
    requires forall c :: 0 <= c < numColumns ==> (grid[r][c] <==> Covered(allItems, r, c))
    ensures hasEmptySlot == RowHasEmpty(allItems, r, numColumns)
    ensures hasFilledSlot == RowHasFilled(allItems, r, numColumns)
  {
    hasEmptySlot, hasFilledSlot := false, false;
    var c := 0;
    while c < numColumns
      invariant c <= numColumns
      invariant hasEmptySlot <==> exists c' :: 0 <= c' < c && !Covered(allItems, r, c')
      invariant hasFilledSlot <==> exists c' :: 0 <= c' < c && Covered(allItems, r, c')
    {
      if !grid[r][c] {
        hasEmptySlot := true;
      } else {
        hasFilledSlot := true;
      }
      c := c + 1;
    }
  }

  /** `detectGaps` as written: build the grid, then scan each row for a mix of empty and filled cells. */
  method ScanGaps(allItems: seq<GridItem>, totalRows: nat, numColumns: nat) returns (report: GapReport)
    ensures report == DetectGaps(allItems, totalRows, numColumns)
  {
    var grid := PaintGrid(allItems, totalRows, numColumns);
    var gapRows: set<nat> := {};
    var r := 0;
    while r < totalRows
      invariant r <= totalRows
      invariant forall x: nat :: x in gapRows <==> x < r && Flagged(allItems, totalRows, numColumns, x)
    {
      var hasEmptySlot, hasFilledSlot := ScanRow(grid, allItems, totalRows, numColumns, r);
      if hasEmptySlot && hasFilledSlot && r < totalRows - 1 {
        gapRows := gapRows + {r};
      }
      r := r + 1;
    }
    var expected := DetectGaps(allItems, totalRows, numColumns).gapRows;
    assert forall x: nat :: x in expected <==> x < totalRows && Flagged(allItems, totalRows, numColumns, x);
    assert gapRows == expected;
    report := GapReport(|gapRows| > 0, gapRows);
  }

  // ---------------------------------------------------------------------------
  // isTrulyPerfect
  // ---------------------------------------------------------------------------

  /** No empty slot in the last row, no gap row, and no lone or two-item last row that leaves visual holes. */
  predicate IsTrulyPerfect(allItems: seq<GridItem>, totalRows: nat, lastRowItems: seq<GridItem>, numColumns: nat, emptySlots: int) {
    emptySlots == 0 &&
    !DetectGaps(allItems, totalRows, numColumns).hasGaps &&
    (|lastRowItems| == 1 ==> lastRowItems[0].colSpan == numColumns) &&
    (|lastRowItems| == 2 ==> forall k :: 0 <= k < 2 ==> lastRowItems[k].rowSpan == 1 && lastRowItems[k].colSpan == 1)
  }

  /** `isTrulyPerfect` applied to a simulated layout. */
  predicate LayoutTrulyPerfect(layout: GridLayoutResult, numColumns: nat) {
    IsTrulyPerfect(layout.allItems, layout.totalRows, layout.lastRowItems, numColumns, layout.emptySlots)
  }

  /** A truly perfect layout is perfect, and an empty album never is. */
  lemma TrulyPerfectIsPerfect(count: nat, patternIndex: int, numColumns: nat, overrides: Overrides)
    requires numColumns >= 1
    ensures LayoutTrulyPerfect(Simulate(count, patternIndex, numColumns, overrides), numColumns) ==>
      Simulate(count, patternIndex, numColumns, overrides).isPerfect && count > 0
  {
  }

  // ---------------------------------------------------------------------------
  // Every row above the last holds something
  // ---------------------------------------------------------------------------

  /**
   * The row just above a placed item always has a covered cell: the same
   * rectangle one row higher came earlier in the search, and the cell that
   * blocked it cannot lie in the item's own rows, so it lies in the row above.
   */
  lemma RowAboveCovered(items: seq<GridItem>, patternIndex: int, numColumns: nat, overrides: Overrides, k: nat)
    requires numColumns >= 1
    requires ValidPlacement(items, patternIndex, numColumns, overrides)
    requires k < |items| && items[k].row > 0
    ensures RowHasFilled(items, items[k].row - 1, numColumns)
  {
    var item := items[k];
    var R := item.row;
    PlacementAt(items, patternIndex, numColumns, overrides, k);
    var occupied := Occupancy(items[..k]);
    assert !Fits(occupied, R - 1, item.col, item.rowSpan, item.colSpan, numColumns);
    var r: nat, c: nat :| R - 1 <= r < R - 1 + item.rowSpan && item.col <= c < item.col + item.colSpan && Cell(r, c) in occupied;
    assert r == R - 1;
    OccupancyMembership(items[..k], r, c);
    var j :| 0 <= j < k && Covers(items[..k][j], r, c);
    assert items[..k][j] == items[j];
    assert Covered(items, R - 1, c);
  }

  /** Every row at or above a placed item's row has a covered cell. */
  lemma RowsAboveCovered(items: seq<GridItem>, patternIndex: int, numColumns: nat, overrides: Overrides, k: nat, row: nat)
    requires numColumns >= 1
    requires ValidPlacement(items, patternIndex, numColumns, overrides)
    requires k < |items| && row <= items[k].row
    ensures RowHasFilled(items, row, numColumns)
    decreases items[k].row
  {
    PlacementAt(items, patternIndex, numColumns, overrides, k);
    if row == items[k].row {
      assert Covers(items[k], row, items[k].col);
      assert Covered(items, row, items[k].col);
    } else {
      RowAboveCovered(items, patternIndex, numColumns, overrides, k);
      var c :| 0 <= c < numColumns && Covered(items, items[k].row - 1, c);
      if row < items[k].row - 1 {
        var j :| 0 <= j < |items| && Covers(items[j], items[k].row - 1, c);
        PlacementAt(items, patternIndex, numColumns, overrides, j);
        RowsAboveCovered(items, patternIndex, numColumns, overrides, j, row);
      }
    }
  }

  lemma SubsetSameSize<T>(a: set<T>, b: set<T>)
    requires a <= b && |a| == |b|
    ensures a == b
  {
    assert |b - a| == |b| - |a|;
  }

  /** Every cell of row `row` inside the columns is covered. */
  predicate RowFull(items: seq<GridItem>, row: nat, numColumns: nat) {
    forall c :: 0 <= c < numColumns ==> Covered(items, row, c)
  }

  /** Column-disjoint items inside the grid whose spans add up to the column count reach every column. */
  lemma SpansCoverAllColumns(items: seq<GridItem>, numColumns: nat)
    requires ColumnDisjoint(items)
    requires forall i :: 0 <= i < |items| ==> items[i].col + items[i].colSpan <= numColumns
    requires SumColSpans(items) == numColumns
    ensures forall c: nat :: c < numColumns ==> ColumnReached(items, c)
  {
    ColumnSpanSize(items);
    forall c | c in ColumnSpan(items) ensures c < numColumns {
      ColumnSpanMembership(items, c);
    }
    SubsetSameSize(ColumnSpan(items), Interval(0, numColumns));
    forall c: nat | c < numColumns
      ensures ColumnReached(items, c)
    {
      ColumnSpanMembership(items, c);
    }
  }

  /** Items starting in `row` whose spans add up to the column count cover that whole row. */
  lemma RowItemsFillRow(items: seq<GridItem>, patternIndex: int, numColumns: nat, overrides: Overrides, row: nat)
    requires numColumns >= 1
    requires ValidPlacement(items, patternIndex, numColumns, overrides)
    requires SumColSpans(RowItems(items, row)) == numColumns
    ensures RowFull(items, row, numColumns)
  {
    PlacementShape(items, patternIndex, numColumns, overrides);
    SameRowColumnDisjoint(items, patternIndex, numColumns, overrides, row);
    DisjointRowFillsRow(items, numColumns, row);
  }

  /**
   * The covering argument on its own: column-disjoint row items inside the
   * grid whose spans add up to the column count cover every cell of the row.
   */
  lemma DisjointRowFillsRow(items: seq<GridItem>, numColumns: nat, row: nat)
    requires InsideColumns(items, numColumns)
    requires forall i :: 0 <= i < |items| ==> 1 <= items[i].rowSpan
    requires ColumnDisjoint(RowItems(items, row))
    requires SumColSpans(RowItems(items, row)) == numColumns
    ensures RowFull(items, row, numColumns)
  {
    var inRow := RowItems(items, row);
    RowItemsMembership(items, row);
    RowItemsSpans(items, row, numColumns);
    SpansCoverAllColumns(inRow, numColumns);
    forall c | 0 <= c < numColumns
      ensures Covered(items, row, c)
    {
      assert ColumnReached(inRow, c);
      var i :| 0 <= i < |inRow| && InColumns(inRow[i], c);
      assert inRow[i] in items;
      var j :| 0 <= j < |items| && items[j] == inRow[i];
      assert Covers(items[j], row, c);
    }
  }

  /** With no empty slot, the last row's own items cover every column of it. */
  lemma LastRowFull(count: nat, patternIndex: int, numColumns: nat, overrides: Overrides)
    requires numColumns >= 1
    requires Simulate(count, patternIndex, numColumns, overrides).emptySlots == 0
    ensures RowFull(Simulate(count, patternIndex, numColumns, overrides).allItems,
                    Simulate(count, patternIndex, numColumns, overrides).totalRows - 1, numColumns)
  {
    var res := Simulate(count, patternIndex, numColumns, overrides);
    var lastRow: nat := res.totalRows - 1;
    assert RowFull(res.allItems, lastRow, numColumns) by {
      SimulatePlacement(count, patternIndex, numColumns, overrides);
      RowItemsFillRow(res.allItems, patternIndex, numColumns, overrides, lastRow);
    }
  }

  /** A row that is not flagged, not last and holds something is completely filled. */
  lemma UnflaggedRowFull(items: seq<GridItem>, totalRows: nat, numColumns: nat, row: nat)
    requires !DetectGaps(items, totalRows, numColumns).hasGaps
    requires row + 1 < totalRows && RowHasFilled(items, row, numColumns)
    ensures RowFull(items, row, numColumns)
  {
    var gaps := DetectGaps(items, totalRows, numColumns).gapRows;
    assert gaps == {};
    assert !Flagged(items, totalRows, numColumns, row) by {
      assert row !in gaps;
    }
  }

  /**
   * The point of the "truly perfect" test: a simulated layout with no empty
   * slot and no gap row covers every cell of the rectangular grid.
   */
  lemma TrulyPerfectFillsGrid(count: nat, patternIndex: int, numColumns: nat, overrides: Overrides)
    requires numColumns >= 1
    requires Simulate(count, patternIndex, numColumns, overrides).emptySlots == 0
    requires !DetectGaps(Simulate(count, patternIndex, numColumns, overrides).allItems,
                         Simulate(count, patternIndex, numColumns, overrides).totalRows, numColumns).hasGaps
    ensures var res := Simulate(count, patternIndex, numColumns, overrides);
      forall r: nat :: r < res.totalRows ==> RowFull(res.allItems, r, numColumns)
  {
    var res := Simulate(count, patternIndex, numColumns, overrides);
    LastRowFull(count, patternIndex, numColumns, overrides);
    RowsAboveHoldSomething(count, patternIndex, numColumns, overrides);
    FilledRowsFull(res.allItems, res.totalRows, numColumns);
  }

  /** Every row above the bottom row of a simulated layout holds some item. */
  lemma RowsAboveHoldSomething(count: nat, patternIndex: int, numColumns: nat, overrides: Overrides)
    requires numColumns >= 1
    ensures var res := Simulate(count, patternIndex, numColumns, overrides);
      forall r: nat :: r + 1 < res.totalRows ==> RowHasFilled(res.allItems, r, numColumns)
  {
    var res := Simulate(count, patternIndex, numColumns, overrides);
    if count > 0 {
      var k :| 0 <= k < count && res.allItems[k].row == res.totalRows - 1;
      SimulatePlacement(count, patternIndex, numColumns, overrides);
      forall r: nat | r + 1 < res.totalRows
        ensures RowHasFilled(res.allItems, r, numColumns)
      {
        RowsAboveCovered(res.allItems, patternIndex, numColumns, overrides, k, r);
      }
    }
  }

  /** Without gap rows, a full bottom row under rows that each hold something makes every row full. */
  lemma FilledRowsFull(items: seq<GridItem>, totalRows: nat, numColumns: nat)
    requires !DetectGaps(items, totalRows, numColumns).hasGaps
    requires totalRows >= 1 && RowFull(items, totalRows - 1, numColumns)
    requires forall r: nat :: r + 1 < totalRows ==> RowHasFilled(items, r, numColumns)
    ensures forall r: nat :: r < totalRows ==> RowFull(items, r, numColumns)
  {
    forall r: nat | r < totalRows
      ensures RowFull(items, r, numColumns)
    {
      if r + 1 < totalRows {
        UnflaggedRowFull(items, totalRows, numColumns, r);
      }
    }
  }

  /** The last-row conditions of the test leave three columns only a full-width item or three single ones. */
  lemma ThreeColumnShapes(last: seq<GridItem>)
    requires forall i :: 0 <= i < |last| ==> last[i].colSpan >= 1
    requires SumColSpans(last) == 3
    requires |last| == 2 ==> forall k :: 0 <= k < 2 ==> last[k].rowSpan == 1 && last[k].colSpan == 1
    ensures (|last| == 1 && last[0].colSpan == 3) ||
      (|last| == 3 && forall i :: 0 <= i < 3 ==> last[i].colSpan == 1)
  {
    SumAtLeastLength(last);
    if |last| == 0 {
      assert false;
    } else if |last| == 1 {
      assert SumColSpans(last) == SumColSpans(last[..0]) + last[0].colSpan;
    } else if |last| == 2 {
      assert false;
    } else if |last| == 3 {
      assert last[..2][..1] == last[..1];
      assert SumColSpans(last) == SumColSpans(last[..2]) + last[2].colSpan;
      assert SumColSpans(last[..2]) == SumColSpans(last[..1]) + last[1].colSpan;
      assert SumColSpans(last[..1]) == SumColSpans(last[..1][..0]) + last[0].colSpan;
    } else {
      assert false;
    }
  }

  /**
   * In three columns a truly perfect last row is either one full-width item
   * or three single-column items.
   */
  lemma ThreeColumnLastRow(count: nat, patternIndex: int, overrides: Overrides)
    requires LayoutTrulyPerfect(Simulate(count, patternIndex, 3, overrides), 3)
    ensures var last := Simulate(count, patternIndex, 3, overrides).lastRowItems;
      (|last| == 1 && last[0].colSpan == 3) ||
      (|last| == 3 && forall i :: 0 <= i < 3 ==> last[i].colSpan == 1)
  {
    LastRowSpans(count, patternIndex, 3, overrides);
    ThreeColumnShapes(Simulate(count, patternIndex, 3, overrides).lastRowItems);
  }

  lemma LastRowSpans(count: nat, patternIndex: int, numColumns: nat, overrides: Overrides)
    requires numColumns >= 1
    ensures var last := Simulate(count, patternIndex, numColumns, overrides).lastRowItems;
      forall i :: 0 <= i < |last| ==> last[i].colSpan >= 1
  {
    var res := Simulate(count, patternIndex, numColumns, overrides);
    RowItemsSpans(res.allItems, res.totalRows - 1, numColumns);
  }

  lemma SumAtLeastLength(items: seq<GridItem>)
    requires forall i :: 0 <= i < |items| ==> items[i].colSpan >= 1
    ensures SumColSpans(items) >= |items|
  {
    if |items| > 0 {
      SumAtLeastLength(items[..|items| - 1]);
    }
  }
}
