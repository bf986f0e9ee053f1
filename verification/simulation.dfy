/**
 * The dense first-fit grid simulator (`simulateGridLayout`).
 *
 * Items are placed in index order; each restarts its search at the origin and
 * takes the row-major-first position whose rectangle is free and inside the
 * columns, which is how `grid-auto-flow: dense` backfills earlier holes.
 * Occupancy is a set of cells; the search is bounded by the extent of the
 * items already placed, since any row at or below it is empty.
 */
module Simulation {
  import opened Wrappers
  import opened Patterns

  datatype Cell = Cell(row: nat, col: nat)

  datatype GridItem = GridItem(index: nat, row: nat, col: nat, rowSpan: nat, colSpan: nat)

  datatype GridLayoutResult = GridLayoutResult(
    totalRows: nat,
    lastRowItems: seq<GridItem>,
    emptySlots: int,
    isPerfect: bool,
    allItems: seq<GridItem>)

  // ---------------------------------------------------------------------------
  // Spans
  // ---------------------------------------------------------------------------

  /** Tall items span two rows. */
  function RowSpanOf(index: nat, patternIndex: int, overrides: Overrides): nat {
    if IsTall(index, patternIndex, overrides) then 2 else 1
  }

  /** The column span exactly as the source computes it: full width, else 2 if wide, else 1. */
  function WrittenColSpan(index: nat, patternIndex: int, numColumns: nat, overrides: Overrides): nat {
    if IsFullWidth(index, overrides) then numColumns
    else if IsWide(index, patternIndex, overrides) then 2
    else 1
  }

  /**
   * The column span the model places: the written span, clamped to the grid.
   * The two agree whenever the written span fits, which is every input on which
   * the source's search terminates.
   */
  function ColSpanOf(index: nat, patternIndex: int, numColumns: nat, overrides: Overrides): (cs: nat)
    requires numColumns >= 1
    ensures 1 <= cs <= numColumns
    ensures WrittenColSpan(index, patternIndex, numColumns, overrides) <= numColumns ==>
      cs == WrittenColSpan(index, patternIndex, numColumns, overrides)
  {
    var written := WrittenColSpan(index, patternIndex, numColumns, overrides);
    if written <= numColumns then written else numColumns
  }

  // ---------------------------------------------------------------------------
  // Occupancy
  // ---------------------------------------------------------------------------

  predicate Covers(item: GridItem, row: int, col: int) {
    item.row <= row < item.row + item.rowSpan && item.col <= col < item.col + item.colSpan
  }

  /** The cells of row `row` in columns `lo .. hi-1`. */
  function RowCells(row: nat, lo: nat, hi: nat): (cells: set<Cell>)
    ensures forall cell :: cell in cells <==> cell.row == row && lo <= cell.col < hi
    decreases hi
  {
    if hi <= lo then {} else RowCells(row, lo, hi - 1) + {Cell(row, hi - 1)}
  }

  /** The cells of `item`'s rectangle from row `row` down. */
  function CellsFrom(item: GridItem, row: nat): (cells: set<Cell>)
    ensures forall cell :: cell in cells <==> row <= cell.row && Covers(item, cell.row, cell.col)
    decreases item.row + item.rowSpan - row
  {
    if item.row + item.rowSpan <= row then {}
    else if row < item.row then CellsFrom(item, item.row)
    else RowCells(row, item.col, item.col + item.colSpan) + CellsFrom(item, row + 1)
  }

  /** The cells covered by `items`. */
  function Occupancy(items: seq<GridItem>): set<Cell> {
    if |items| == 0 then {}
    else Occupancy(items[..|items| - 1]) + CellsFrom(items[|items| - 1], 0)
  }

  lemma {:induction false} OccupancyMembership(items: seq<GridItem>, row: nat, col: nat)
    ensures Cell(row, col) in Occupancy(items) <==>
      exists i :: 0 <= i < |items| && Covers(items[i], row, col)
  {
    if |items| > 0 {
      var init := items[..|items| - 1];
      OccupancyMembership(init, row, col);
      assert forall i :: 0 <= i < |init| ==> items[i] == init[i];
      if Cell(row, col) in Occupancy(init) {
        var i :| 0 <= i < |init| && Covers(init[i], row, col);
        assert Covers(items[i], row, col);
      }
    }
  }

  /** One past the lowest row any item reaches. */
  function Extent(items: seq<GridItem>): (e: nat)
    ensures forall i :: 0 <= i < |items| ==> items[i].row + items[i].rowSpan <= e
  {
    if |items| == 0 then 0
    else
      var rest := Extent(items[..|items| - 1]);
      var last := items[|items| - 1];
      assert forall i :: 0 <= i < |items| - 1 ==> items[i] == items[..|items| - 1][i];
      if rest < last.row + last.rowSpan then last.row + last.rowSpan else rest
  }

  lemma {:induction false} OccupancyBelowExtent(items: seq<GridItem>)
    ensures forall cell :: cell in Occupancy(items) ==> cell.row < Extent(items)
  {
    if |items| > 0 {
      OccupancyBelowExtent(items[..|items| - 1]);
    }
  }

  /** The rectangle at (row, col) lies inside the columns and touches no occupied cell. */
  predicate Fits(occupied: set<Cell>, row: nat, col: nat, rowSpan: nat, colSpan: nat, numColumns: nat) {
    col + colSpan <= numColumns &&
    forall r: nat, c: nat :: row <= r < row + rowSpan && col <= c < col + colSpan ==> Cell(r, c) !in occupied
  }

  // ---------------------------------------------------------------------------
  // First-fit search (`findNextAvailablePosition`)
  // ---------------------------------------------------------------------------

  /** The first column at or after `col` in `row` where the span fits, if any. */
  function FirstFitInRow(occupied: set<Cell>, row: nat, col: nat, rowSpan: nat, colSpan: nat, numColumns: nat): (r: Option<nat>)
    ensures r.Some? ==> col <= r.value && Fits(occupied, row, r.value, rowSpan, colSpan, numColumns)
    ensures r.Some? ==> forall c: nat :: col <= c < r.value ==> !Fits(occupied, row, c, rowSpan, colSpan, numColumns)
    ensures r.None? ==> forall c: nat :: col <= c ==> !Fits(occupied, row, c, rowSpan, colSpan, numColumns)
    decreases numColumns - col
  {
    if col + colSpan > numColumns then None
    else if Fits(occupied, row, col, rowSpan, colSpan, numColumns) then Some(col)
    else FirstFitInRow(occupied, row, col + 1, rowSpan, colSpan, numColumns)
  }

  /**
   * The row-major-first fitting position at or below `row`. Every occupied
   * cell lies above `extent`, so column 0 of row `extent` always fits and the
   * search ends there at the latest.
   */
  function FindPosition(occupied: set<Cell>, extent: nat, row: nat, rowSpan: nat, colSpan: nat, numColumns: nat): (pos: Cell)
    requires colSpan <= numColumns
    requires forall cell :: cell in occupied ==> cell.row < extent
    requires row <= extent
    ensures row <= pos.row <= extent
    ensures Fits(occupied, pos.row, pos.col, rowSpan, colSpan, numColumns)
    ensures forall r: nat, c: nat :: row <= r && (r < pos.row || (r == pos.row && c < pos.col)) ==>
      !Fits(occupied, r, c, rowSpan, colSpan, numColumns)
    decreases extent - row
  {
    var found := FirstFitInRow(occupied, row, 0, rowSpan, colSpan, numColumns);
    if found.Some? then Cell(row, found.value)
    else
      FindPosition(occupied, extent, row + 1, rowSpan, colSpan, numColumns)
  }

  /**
   * The source's search loop as written, cut off after `fuel` rows: each row
   * tries the columns `0 .. numColumns - colSpan` and the loop moves on to the
   * next row when none fits. `None` means no position within `fuel` rows.
   */
  function WrittenSearch(occupied: set<Cell>, row: nat, rowSpan: nat, colSpan: nat, numColumns: nat, fuel: nat): (pos: Option<Cell>)
    ensures pos.Some? ==> row <= pos.value.row < row + fuel
    ensures pos.Some? ==> Fits(occupied, pos.value.row, pos.value.col, rowSpan, colSpan, numColumns)
    decreases fuel
  {
    if fuel == 0 then None
    else
      match FirstFitInRow(occupied, row, 0, rowSpan, colSpan, numColumns)
      case Some(col) => Some(Cell(row, col))
      case None => WrittenSearch(occupied, row + 1, rowSpan, colSpan, numColumns, fuel - 1)
  }

  /** As written, a span wider than the grid is found in no row, however many are searched. */
  lemma {:induction false} WrittenSearchDiverges(occupied: set<Cell>, row: nat, rowSpan: nat, colSpan: nat, numColumns: nat, fuel: nat)
    requires colSpan > numColumns
    ensures WrittenSearch(occupied, row, rowSpan, colSpan, numColumns, fuel) == None
    decreases fuel
  {
    if fuel > 0 {
      WrittenSearchDiverges(occupied, row + 1, rowSpan, colSpan, numColumns, fuel - 1);
    }
  }

  /**
   * The input that shows it: in a one-column grid, photo 2 of pattern 0 is
   * wide, so its written span is 2 and the source's search never returns.
   */
  lemma OneColumnWideItemDiverges(occupied: set<Cell>, fuel: nat)
    ensures WrittenColSpan(2, 0, 1, map[]) == 2
    ensures WrittenSearch(occupied, 0, RowSpanOf(2, 0, map[]), WrittenColSpan(2, 0, 1, map[]), 1, fuel) == None
  {
    assert Matches(2, MasonryPatterns[0].wide[0]);
    WrittenSearchDiverges(occupied, 0, RowSpanOf(2, 0, map[]), 2, 1, fuel);
  }

  /**
   * With the clamped span the same loop ends: searching down to `extent`
   * (below which nothing is occupied) returns exactly the model's position.
   */
  lemma {:induction false} ClampedSearchFinds(occupied: set<Cell>, extent: nat, row: nat, rowSpan: nat, colSpan: nat, numColumns: nat)
    requires 1 <= colSpan <= numColumns
    requires forall cell :: cell in occupied ==> cell.row < extent
    requires row <= extent
    ensures WrittenSearch(occupied, row, rowSpan, colSpan, numColumns, extent + 1 - row) ==
      Some(FindPosition(occupied, extent, row, rowSpan, colSpan, numColumns))
    decreases extent - row
  {
    if row == extent {
      assert Fits(occupied, row, 0, rowSpan, colSpan, numColumns);
    }
    var found := FirstFitInRow(occupied, row, 0, rowSpan, colSpan, numColumns);
    if found.None? {
      if row == extent {
        assert false;
      } else {
        ClampedSearchFinds(occupied, extent, row + 1, rowSpan, colSpan, numColumns);
      }
    }
  }

  // ---------------------------------------------------------------------------
  // Placement
  // ---------------------------------------------------------------------------

  /** `item` fits against `occupied`, and no row-major-earlier position of its shape does. */
  ghost predicate FirstFit(occupied: set<Cell>, item: GridItem, numColumns: nat) {
    Fits(occupied, item.row, item.col, item.rowSpan, item.colSpan, numColumns) &&
    forall r: nat, c: nat :: (r < item.row || (r == item.row && c < item.col)) ==>
      !Fits(occupied, r, c, item.rowSpan, item.colSpan, numColumns)
  }

  /** `item` is photo `i` with its classified spans, at the first fit against the items `before` it. */
  ghost predicate PlacedAfter(before: seq<GridItem>, item: GridItem, i: nat, patternIndex: int, numColumns: nat, overrides: Overrides)
    requires numColumns >= 1
  {
    item.index == i &&
    item.rowSpan == RowSpanOf(i, patternIndex, overrides) &&
    item.colSpan == ColSpanOf(i, patternIndex, numColumns, overrides) &&
    FirstFit(Occupancy(before), item, numColumns)
  }

  /**
   * Every item of `items` is placed against its predecessors. Stated
   * recursively so that only the last placement unfolds; `ValidPlacementAll`
   * gives every item's placement.
   */
  ghost predicate ValidPlacement(items: seq<GridItem>, patternIndex: int, numColumns: nat, overrides: Overrides)
    requires numColumns >= 1
  {
    |items| == 0 ||
    (ValidPlacement(items[..|items| - 1], patternIndex, numColumns, overrides) &&
     PlacedAfter(items[..|items| - 1], items[|items| - 1], |items| - 1, patternIndex, numColumns, overrides))
  }

  lemma {:induction false} ValidPlacementAll(items: seq<GridItem>, patternIndex: int, numColumns: nat, overrides: Overrides)
    requires numColumns >= 1
    requires ValidPlacement(items, patternIndex, numColumns, overrides)
    ensures forall i :: 0 <= i < |items| ==> PlacedAfter(items[..i], items[i], i, patternIndex, numColumns, overrides)
  {
    if |items| > 0 {
      var init := items[..|items| - 1];
      ValidPlacementAll(init, patternIndex, numColumns, overrides);
      forall i | 0 <= i < |init|
        ensures PlacedAfter(items[..i], items[i], i, patternIndex, numColumns, overrides)
      {
        assert items[..i] == init[..i] && items[i] == init[i];
      }
    }
  }

  /** The placement of item `i` of a valid placement. */
  lemma PlacementAt(items: seq<GridItem>, patternIndex: int, numColumns: nat, overrides: Overrides, i: nat)
    requires numColumns >= 1
    requires ValidPlacement(items, patternIndex, numColumns, overrides)
    requires i < |items|
    ensures PlacedAfter(items[..i], items[i], i, patternIndex, numColumns, overrides)
  {
    ValidPlacementAll(items, patternIndex, numColumns, overrides);
  }

  /** Places photo `index` after `items`, searching from row 0. */
  function PlaceItem(items: seq<GridItem>, index: nat, patternIndex: int, numColumns: nat, overrides: Overrides): (item: GridItem)
    requires numColumns >= 1
    ensures item.index == index
    ensures item.rowSpan == RowSpanOf(index, patternIndex, overrides)
    ensures item.colSpan == ColSpanOf(index, patternIndex, numColumns, overrides)
    ensures FirstFit(Occupancy(items), item, numColumns)
  {
    var rowSpan := RowSpanOf(index, patternIndex, overrides);
    var colSpan := ColSpanOf(index, patternIndex, numColumns, overrides);
    OccupancyBelowExtent(items);
    var pos := FindPosition(Occupancy(items), Extent(items), 0, rowSpan, colSpan, numColumns);
    GridItem(index, pos.row, pos.col, rowSpan, colSpan)
  }

  /** Photos `0 .. count-1`, each placed against the ones before it. */
  function PlaceAll(count: nat, patternIndex: int, numColumns: nat, overrides: Overrides): (items: seq<GridItem>)
    requires numColumns >= 1
    ensures |items| == count
  {
    if count == 0 then []
    else
      var before := PlaceAll(count - 1, patternIndex, numColumns, overrides);
      before + [PlaceItem(before, count - 1, patternIndex, numColumns, overrides)]
  }

  /** Every photo `PlaceAll` places sits at its first fit against the photos before it. */
  lemma {:induction false} PlaceAllValid(count: nat, patternIndex: int, numColumns: nat, overrides: Overrides)
    requires numColumns >= 1
    ensures ValidPlacement(PlaceAll(count, patternIndex, numColumns, overrides), patternIndex, numColumns, overrides)
  {
    if count > 0 {
      var before := PlaceAll(count - 1, patternIndex, numColumns, overrides);
      PlaceAllValid(count - 1, patternIndex, numColumns, overrides);
      var item := PlaceItem(before, count - 1, patternIndex, numColumns, overrides);
      var items := PlaceAll(count, patternIndex, numColumns, overrides);
      assert items == before + [item];
      assert items[..count - 1] == before && items[count - 1] == item;
      assert PlacedAfter(before, item, count - 1, patternIndex, numColumns, overrides);
    }
  }

  /** No cell is claimed twice: earlier items are part of the occupancy a later item must avoid. */
  lemma NoOverlap(items: seq<GridItem>, patternIndex: int, numColumns: nat, overrides: Overrides, a: nat, b: nat, row: nat, col: nat)
    requires numColumns >= 1
    requires ValidPlacement(items, patternIndex, numColumns, overrides)
    requires a < |items| && b < |items| && a != b
    ensures !(Covers(items[a], row, col) && Covers(items[b], row, col))
  {
    var (x, y) := if a < b then (a, b) else (b, a);
    if Covers(items[x], row, col) {
      assert items[..y][x] == items[x];
      OccupancyMembership(items[..y], row, col);
      PlacementAt(items, patternIndex, numColumns, overrides, y);
    }
  }

  // ---------------------------------------------------------------------------
  // Last-row statistics
  // ---------------------------------------------------------------------------

  /** `Math.max(...items.map(item => item.row))`, and 0 for no items. */
  function MaxRow(items: seq<GridItem>): (m: nat)
    ensures forall i :: 0 <= i < |items| ==> items[i].row <= m
    ensures |items| > 0 ==> exists i :: 0 <= i < |items| && items[i].row == m
    ensures |items| == 0 ==> m == 0
  {
    if |items| == 0 then 0
    else
      var rest := MaxRow(items[..|items| - 1]);
      var last := items[|items| - 1];
      assert forall i :: 0 <= i < |items| - 1 ==> items[i] == items[..|items| - 1][i];
      if |items| == 1 || rest < last.row then last.row else rest
  }

  /** Indices strictly increase along the sequence, as they do in placement order. */
  predicate IndexOrdered(items: seq<GridItem>) {
    forall i, j :: 0 <= i < j < |items| ==> items[i].index < items[j].index
  }

  /** `items.filter(item => item.row === row)`, keeping placement order. */
  function RowItems(items: seq<GridItem>, row: nat): (r: seq<GridItem>)
    ensures |r| <= |items|
  {
    if |items| == 0 then []
    else
      var rest := RowItems(items[..|items| - 1], row);
      if items[|items| - 1].row == row then rest + [items[|items| - 1]] else rest
  }

  /** The filter keeps exactly the items of the row. */
  lemma {:induction false} RowItemsMembership(items: seq<GridItem>, row: nat)
    ensures forall x :: x in RowItems(items, row) <==> x in items && x.row == row
  {
    if |items| > 0 {
      var init := items[..|items| - 1];
      RowItemsMembership(init, row);
      assert items == init + [items[|items| - 1]];
    }
  }

  /** Every item has a positive column span and ends inside the columns. */
  predicate InsideColumns(items: seq<GridItem>, numColumns: nat) {
    forall i :: 0 <= i < |items| ==> items[i].col + items[i].colSpan <= numColumns && 1 <= items[i].colSpan
  }

  /** The filter keeps items inside the columns. */
  lemma {:induction false} RowItemsSpans(items: seq<GridItem>, row: nat, numColumns: nat)
    requires InsideColumns(items, numColumns)
    ensures InsideColumns(RowItems(items, row), numColumns)
  {
    if |items| > 0 {
      var init := items[..|items| - 1];
      assert InsideColumns(init, numColumns) by {
        assert forall i :: 0 <= i < |init| ==> init[i] == items[i];
      }
      RowItemsSpans(init, row, numColumns);
      var rest, last := RowItems(init, row), items[|items| - 1];
      if last.row == row {
        var r := rest + [last];
        assert RowItems(items, row) == r;
        forall i | 0 <= i < |r|
          ensures r[i].col + r[i].colSpan <= numColumns && 1 <= r[i].colSpan
        {
          if i < |rest| {
            assert r[i] == rest[i];
          } else {
            assert r[i] == last;
          }
        }
      }
    }
  }

  /** The filter keeps placement order. */
  lemma {:induction false} RowItemsOrdered(items: seq<GridItem>, row: nat)
    requires IndexOrdered(items)
    ensures IndexOrdered(RowItems(items, row))
  {
    if |items| > 0 {
      var init := items[..|items| - 1];
      assert IndexOrdered(init);
      RowItemsOrdered(init, row);
      RowItemsMembership(init, row);
      var rest := RowItems(init, row);
      forall x | x in rest ensures x.index < items[|items| - 1].index {
        var k :| 0 <= k < |init| && init[k] == x;
        assert items[k] == x;
      }
    }
  }

  /** The sum of the column spans. */
  function SumColSpans(items: seq<GridItem>): nat {
    if |items| == 0 then 0 else SumColSpans(items[..|items| - 1]) + items[|items| - 1].colSpan
  }

  /** The columns `lo .. hi-1`. */
  function Interval(lo: nat, hi: nat): (cols: set<nat>)
    ensures forall c :: c in cols <==> lo <= c < hi
    ensures lo <= hi ==> |cols| == hi - lo
    decreases hi
  {
    if hi <= lo then {} else Interval(lo, hi - 1) + {hi - 1}
  }

  /** The columns covered by the items' column ranges. */
  function ColumnSpan(items: seq<GridItem>): set<nat> {
    if |items| == 0 then {}
    else ColumnSpan(items[..|items| - 1]) + Interval(items[|items| - 1].col, items[|items| - 1].col + items[|items| - 1].colSpan)
  }

  /** An item's column range lies in the span, and only those columns do. */
  predicate InColumns(item: GridItem, c: int) {
    item.col <= c < item.col + item.colSpan
  }

  /** Some item's column range contains `c`. */
  predicate ColumnReached(items: seq<GridItem>, c: int) {
    exists i :: 0 <= i < |items| && InColumns(items[i], c)
  }

  lemma {:induction false} ColumnSpanMembership(items: seq<GridItem>, c: nat)
    ensures c in ColumnSpan(items) <==> ColumnReached(items, c)
  {
    if |items| > 0 {
      var init := items[..|items| - 1];
      ColumnSpanMembership(init, c);
      if c in ColumnSpan(init) {
        var i :| 0 <= i < |init| && InColumns(init[i], c);
        assert items[i] == init[i];
      }
      if ColumnReached(items, c) {
        var i :| 0 <= i < |items| && InColumns(items[i], c);
        if i < |init| {
          assert init[i] == items[i];
        }
      }
    }
  }

  /** No two of the items share a column. */
  predicate ColumnDisjoint(items: seq<GridItem>) {
    forall i, j :: 0 <= i < j < |items| ==>
      items[i].col + items[i].colSpan <= items[j].col || items[j].col + items[j].colSpan <= items[i].col
  }

  /** Column-disjoint items cover exactly as many columns as their spans add up to. */
  lemma {:induction false} ColumnSpanSize(items: seq<GridItem>)
    requires ColumnDisjoint(items)
    ensures |ColumnSpan(items)| == SumColSpans(items)
  {
    if |items| > 0 {
      var init := items[..|items| - 1];
      var last := items[|items| - 1];
      assert ColumnDisjoint(init);
      ColumnSpanSize(init);
      SpanApartFromLast(items);
    }
  }

  lemma SpanApartFromLast(items: seq<GridItem>)
    requires |items| > 0 && ColumnDisjoint(items)
    ensures ColumnSpan(items[..|items| - 1]) !! Interval(items[|items| - 1].col, items[|items| - 1].col + items[|items| - 1].colSpan)
  {
    var init := items[..|items| - 1];
    var last := items[|items| - 1];
    forall c: nat | c in ColumnSpan(init)
      ensures !InColumns(last, c)
    {
      ColumnSpanMembership(init, c);
      var i :| 0 <= i < |init| && InColumns(init[i], c);
      assert items[i] == init[i];
    }
  }

  /** Column-disjoint items inside `numColumns` columns span at most `numColumns` in total. */
  lemma RowWidthBound(items: seq<GridItem>, numColumns: nat)
    requires ColumnDisjoint(items)
    requires forall i :: 0 <= i < |items| ==> items[i].col + items[i].colSpan <= numColumns
    ensures SumColSpans(items) <= numColumns
  {
    ColumnSpanSize(items);
    forall c | c in ColumnSpan(items) ensures c < numColumns {
      ColumnSpanMembership(items, c);
    }
    SubsetSize(ColumnSpan(items), Interval(0, numColumns));
  }

  lemma SubsetSize<T>(a: set<T>, b: set<T>)
    requires a <= b
    ensures |a| <= |b|
  {
    assert b == a + (b - a);
  }

  /** Items of one row of a valid placement never share a column. */
  lemma SameRowColumnDisjoint(items: seq<GridItem>, patternIndex: int, numColumns: nat, overrides: Overrides, row: nat)
    requires numColumns >= 1
    requires ValidPlacement(items, patternIndex, numColumns, overrides)
    ensures ColumnDisjoint(RowItems(items, row))
  {
    PlacementShape(items, patternIndex, numColumns, overrides);
    var r := RowItems(items, row);
    RowItemsMembership(items, row);
    forall i, j | 0 <= i < j < |r|
      ensures r[i].col + r[i].colSpan <= r[j].col || r[j].col + r[j].colSpan <= r[i].col
    {
      assert r[i] in items && r[j] in items;
      var a :| 0 <= a < |items| && items[a] == r[i];
      var b :| 0 <= b < |items| && items[b] == r[j];
      RowItemsOrdered(items, row);
      if !(r[i].col + r[i].colSpan <= r[j].col || r[j].col + r[j].colSpan <= r[i].col) {
        var c := if r[i].col < r[j].col then r[j].col else r[i].col;
        NoOverlap(items, patternIndex, numColumns, overrides, a, b, row, c);
      }
    }
  }

  /** Shape facts every valid placement has. */
  lemma PlacementShape(items: seq<GridItem>, patternIndex: int, numColumns: nat, overrides: Overrides)
    requires numColumns >= 1
    requires ValidPlacement(items, patternIndex, numColumns, overrides)
    ensures forall i :: 0 <= i < |items| ==> items[i].index == i
    ensures IndexOrdered(items)
    ensures forall i :: 0 <= i < |items| ==>
      items[i].col + items[i].colSpan <= numColumns && 1 <= items[i].colSpan && 1 <= items[i].rowSpan <= 2
    ensures InsideColumns(items, numColumns)
  {
    forall i | 0 <= i < |items|
      ensures items[i].index == i
      ensures items[i].col + items[i].colSpan <= numColumns && 1 <= items[i].colSpan && 1 <= items[i].rowSpan <= 2
    {
      PlacementAt(items, patternIndex, numColumns, overrides, i);
    }
  }

  /** The last row of a valid placement is nonempty and fits inside the columns. */
  lemma LastRowFacts(items: seq<GridItem>, patternIndex: int, numColumns: nat, overrides: Overrides)
    requires numColumns >= 1
    requires ValidPlacement(items, patternIndex, numColumns, overrides)
    ensures |items| > 0 ==> |RowItems(items, MaxRow(items))| > 0
    ensures IndexOrdered(RowItems(items, MaxRow(items)))
    ensures SumColSpans(RowItems(items, MaxRow(items))) <= numColumns
  {
    PlacementShape(items, patternIndex, numColumns, overrides);
    var maxRow := MaxRow(items);
    var last := RowItems(items, maxRow);
    RowItemsMembership(items, maxRow);
    RowItemsOrdered(items, maxRow);
    SameRowColumnDisjoint(items, patternIndex, numColumns, overrides, maxRow);
    forall i | 0 <= i < |last|
      ensures last[i].col + last[i].colSpan <= numColumns
    {
      assert last[i] in items;
    }
    RowWidthBound(last, numColumns);
    if |items| > 0 {
      var k :| 0 <= k < |items| && items[k].row == maxRow;
      assert items[k] in last;
    }
  }

  /**
   * `simulateGridLayout`: places every photo, then reports the last row (the
   * greatest starting row) and the columns its items leave unfilled.
   */
  function Simulate(count: nat, patternIndex: int, numColumns: nat, overrides: Overrides): (res: GridLayoutResult)
    requires numColumns >= 1
    ensures |res.allItems| == count
    ensures forall i :: 0 <= i < count ==> res.allItems[i].index == i
    ensures res.totalRows >= 1
    ensures forall i :: 0 <= i < count ==> res.allItems[i].row < res.totalRows
    ensures count > 0 ==> exists i :: 0 <= i < count && res.allItems[i].row == res.totalRows - 1
    ensures count == 0 ==>
      res.totalRows == 1 && res.lastRowItems == [] && res.emptySlots == numColumns && !res.isPerfect
    ensures res.lastRowItems == RowItems(res.allItems, res.totalRows - 1)
    ensures count > 0 ==> |res.lastRowItems| > 0
    ensures IndexOrdered(res.lastRowItems)
    ensures res.emptySlots == numColumns - SumColSpans(res.lastRowItems)
    ensures 0 <= res.emptySlots <= numColumns
    ensures res.isPerfect <==> res.emptySlots == 0
    ensures InsideColumns(res.allItems, numColumns)
  {
    var items := PlaceAll(count, patternIndex, numColumns, overrides);
    PlaceAllValid(count, patternIndex, numColumns, overrides);
    PlacementShape(items, patternIndex, numColumns, overrides);
    LastRowFacts(items, patternIndex, numColumns, overrides);
    var maxRow := MaxRow(items);
    var lastRowItems := RowItems(items, maxRow);
    var emptySlots := numColumns - SumColSpans(lastRowItems);
    GridLayoutResult(maxRow + 1, lastRowItems, emptySlots, emptySlots == 0, items)
  }

  /** The reported last row holds exactly the items that start in the bottom row. */
  lemma LastRowMembership(count: nat, patternIndex: int, numColumns: nat, overrides: Overrides)
    requires numColumns >= 1
    ensures var res := Simulate(count, patternIndex, numColumns, overrides);
      forall x :: x in res.lastRowItems <==> x in res.allItems && x.row == res.totalRows - 1
  {
    var res := Simulate(count, patternIndex, numColumns, overrides);
    RowItemsMembership(res.allItems, res.totalRows - 1);
  }

  /** The simulated items are a valid placement. */
  lemma SimulatePlacement(count: nat, patternIndex: int, numColumns: nat, overrides: Overrides)
    requires numColumns >= 1
    ensures ValidPlacement(Simulate(count, patternIndex, numColumns, overrides).allItems, patternIndex, numColumns, overrides)
  {
    PlaceAllValid(count, patternIndex, numColumns, overrides);
  }

  /** Photo `i` of a simulated layout has the spans its classification gives it. */
  lemma SimulatedSpans(count: nat, patternIndex: int, numColumns: nat, overrides: Overrides, i: nat)
    requires numColumns >= 1
    requires i < count
    ensures var item := Simulate(count, patternIndex, numColumns, overrides).allItems[i];
      item.rowSpan == RowSpanOf(i, patternIndex, overrides) &&
      item.colSpan == ColSpanOf(i, patternIndex, numColumns, overrides)
  {
    SimulatePlacement(count, patternIndex, numColumns, overrides);
    PlacementAt(Simulate(count, patternIndex, numColumns, overrides).allItems, patternIndex, numColumns, overrides, i);
  }
}
