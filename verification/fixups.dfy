/**
 * `createComprehensiveFixups`: four ordered repair passes that turn the
 * layout of a chosen pattern into an index -> override map.
 *
 *   1. `GapPass`      flattens tall items that reach into a gap row;
 *   2. `TailPass`     flattens every big, tall or wide item starting in the last three rows;
 *   3. `JointPass`    (three columns) balances the last two rows together;
 *   4. `FallbackPass` repairs the last row alone.
 *
 * Between passes the source carries the current layout in local variables;
 * here it travels in a `Stage` together with the overrides that produced
 * it, and every pass keeps the two consistent. An override always replaces
 * the whole entry for its index (`Map.set`), so a field it leaves undefined
 * falls back to the pattern, never to an earlier override.
 */
module Fixups {
  import opened Wrappers
  import opened Patterns
  import opened Simulation
  import opened Gaps

  // ---------------------------------------------------------------------------
  // The overrides the passes write
  // ---------------------------------------------------------------------------

  /** The five override shapes that occur in the source. */
  datatype Fix =
    | Flatten   // { tall: false, wide: false }
    | Widen     // { wide: true, tall: false }
    | FullRow   // { fullWidth: true, tall: false }
    | Heighten  // { tall: true, wide: false }
    | Unstack   // { tall: false, wide: item.colSpan === 2 }

  function OverrideFor(fix: Fix, item: GridItem): SizeOverride {
    match fix
    case Flatten => SizeOverride(Some(false), Some(false), None)
    case Widen => SizeOverride(Some(false), Some(true), None)
    case FullRow => SizeOverride(Some(false), None, Some(true))
    case Heighten => SizeOverride(Some(true), Some(false), None)
    case Unstack => SizeOverride(Some(false), Some(item.colSpan == 2), None)
  }

  /** `overrides.set(item.index, ...)`: replaces the item's whole entry. */
  function SetFix(overrides: Overrides, item: GridItem, fix: Fix): Overrides {
    overrides[item.index := OverrideFor(fix, item)]
  }

  /** `items.forEach(item => overrides.set(...))`, in order, so a later entry wins. */
  function Apply(overrides: Overrides, items: seq<GridItem>, fix: Fix): (r: Overrides)
    ensures r.Keys == overrides.Keys + set x | x in items :: x.index
    decreases |items|
  {
    if |items| == 0 then overrides
    else
      var r := Apply(SetFix(overrides, items[0], fix), items[1..], fix);
      assert forall x :: x in items <==> x == items[0] || x in items[1..];
      r
  }

  /** Every item of an index-ordered list ends up with exactly the entry the fix writes. */
  lemma {:induction false} ApplyEffect(overrides: Overrides, items: seq<GridItem>, fix: Fix, i: nat)
    requires IndexOrdered(items)
    requires i < |items|
    ensures Apply(overrides, items, fix)[items[i].index] == OverrideFor(fix, items[i])
    decreases |items|
  {
    var next := SetFix(overrides, items[0], fix);
    assert IndexOrdered(items[1..]);
    if i == 0 {
      forall x | x in items[1..] ensures x.index != items[0].index {
        var j :| 0 <= j < |items[1..]| && items[1..][j] == x;
        assert items[j + 1] == x;
      }
      ApplyElsewhere(next, items[1..], fix, items[0].index);
    } else {
      ApplyEffect(next, items[1..], fix, i - 1);
    }
  }

  /** An entry whose index no item carries is left as it was. */
  lemma {:induction false} ApplyElsewhere(overrides: Overrides, items: seq<GridItem>, fix: Fix, k: nat)
    requires k in overrides
    requires forall x :: x in items ==> x.index != k
    ensures Apply(overrides, items, fix)[k] == overrides[k]
    decreases |items|
  {
    if |items| > 0 {
      assert items[0] in items;
      forall x | x in items[1..] ensures x.index != k {
        var j :| 0 <= j < |items[1..]| && items[1..][j] == x;
        assert items[j + 1] == x;
      }
      ApplyElsewhere(SetFix(overrides, items[0], fix), items[1..], fix, k);
    }
  }

  // ---------------------------------------------------------------------------
  // What every produced map satisfies
  // ---------------------------------------------------------------------------

  /** A photo index, an entry that defines `tall`, and `fullWidth` only in a three-column grid. */
  predicate GoodEntry(k: nat, o: SizeOverride, count: nat, numColumns: nat) {
    k < count && o.tall.Some? && (o.fullWidth.Some? ==> numColumns == 3)
  }

  predicate WellFormed(overrides: Overrides, count: nat, numColumns: nat) {
    forall k :: k in overrides ==> GoodEntry(k, overrides[k], count, numColumns)
  }

  /** `FullRow` is only ever written in three columns. */
  predicate FixAllowed(fix: Fix, numColumns: nat) {
    fix.FullRow? ==> numColumns == 3
  }

  lemma SetFixWellFormed(overrides: Overrides, item: GridItem, fix: Fix, count: nat, numColumns: nat)
    requires WellFormed(overrides, count, numColumns)
    requires item.index < count && FixAllowed(fix, numColumns)
    ensures WellFormed(SetFix(overrides, item, fix), count, numColumns)
  {
  }

  lemma {:induction false} ApplyWellFormed(overrides: Overrides, items: seq<GridItem>, fix: Fix, count: nat, numColumns: nat)
    requires WellFormed(overrides, count, numColumns)
    requires forall x :: x in items ==> x.index < count
    requires FixAllowed(fix, numColumns)
    ensures WellFormed(Apply(overrides, items, fix), count, numColumns)
    decreases |items|
  {
    if |items| > 0 {
      assert items[0] in items;
      SetFixWellFormed(overrides, items[0], fix, count, numColumns);
      assert forall x :: x in items[1..] ==> x in items;
      ApplyWellFormed(SetFix(overrides, items[0], fix), items[1..], fix, count, numColumns);
    }
  }

  // ---------------------------------------------------------------------------
  // Filtering and sorting the items
  // ---------------------------------------------------------------------------

  /** The two item filters the passes use. */
  datatype Criterion =
    | TouchesGap(gapRows: set<nat>)      // tall, and starting in or reaching down into a gap row
    | BigInLastThreeRows(totalRows: nat) // starting in the last three rows, taller or wider than one cell

  predicate Keeps(keep: Criterion, x: GridItem) {
    match keep
    case TouchesGap(gapRows) => x.rowSpan == 2 && (x.row in gapRows || x.row + 1 in gapRows)
    case BigInLastThreeRows(totalRows) => totalRows - 3 <= x.row <= totalRows - 1 && (x.rowSpan > 1 || x.colSpan > 1)
  }

  /** `items.filter(...)`, keeping placement order. */
  function Filter(items: seq<GridItem>, keep: Criterion): (r: seq<GridItem>)
    ensures |r| <= |items|
    decreases |items|
  {
    if |items| == 0 then []
    else (if Keeps(keep, items[0]) then [items[0]] else []) + Filter(items[1..], keep)
  }

  lemma {:induction false} FilterMembership(items: seq<GridItem>, keep: Criterion)
    ensures forall x :: x in Filter(items, keep) <==> x in items && Keeps(keep, x)
    decreases |items|
  {
    if |items| > 0 {
      FilterMembership(items[1..], keep);
      assert forall x :: x in items <==> x == items[0] || x in items[1..];
    }
  }

  lemma {:induction false} FilterOrdered(items: seq<GridItem>, keep: Criterion)
    requires IndexOrdered(items)
    ensures IndexOrdered(Filter(items, keep))
    decreases |items|
  {
    if |items| > 0 {
      assert IndexOrdered(items[1..]);
      FilterOrdered(items[1..], keep);
      FilterMembership(items[1..], keep);
      var rest := Filter(items[1..], keep);
      forall x | x in rest ensures items[0].index < x.index {
        var j :| 0 <= j < |items[1..]| && items[1..][j] == x;
        assert items[j + 1] == x;
      }
    }
  }

  lemma FilteredWellFormed(overrides: Overrides, items: seq<GridItem>, keep: Criterion, fix: Fix, count: nat, numColumns: nat)
    requires WellFormed(overrides, count, numColumns)
    requires forall x :: x in items ==> x.index < count
    requires FixAllowed(fix, numColumns)
    ensures WellFormed(Apply(overrides, Filter(items, keep), fix), count, numColumns)
  {
    FilterMembership(items, keep);
    ApplyWellFormed(overrides, Filter(items, keep), fix, count, numColumns);
  }

  /** `(a.row, a.col)` comes no later than `(b.row, b.col)` in row-major order. */
  predicate Precedes(a: GridItem, b: GridItem) {
    a.row < b.row || (a.row == b.row && a.col <= b.col)
  }

  predicate SortedByPosition(s: seq<GridItem>) {
    forall i, j :: 0 <= i < j < |s| ==> Precedes(s[i], s[j])
  }

  /** Inserts `x` after every element that does not come after it, so equal keys keep their order. */
  function InsertByPosition(s: seq<GridItem>, x: GridItem): (r: seq<GridItem>)
    ensures |r| == |s| + 1
    decreases |s|
  {
    if |s| == 0 then [x]
    else if Precedes(s[|s| - 1], x) then s + [x]
    else InsertByPosition(s[..|s| - 1], x) + [s[|s| - 1]]
  }

  /** Inserting adds exactly `x`. */
  lemma {:induction false} InsertByPositionAdds(s: seq<GridItem>, x: GridItem)
    ensures multiset(InsertByPosition(s, x)) == multiset(s) + multiset{x}
    decreases |s|
  {
    if |s| > 0 && !Precedes(s[|s| - 1], x) {
      var init, last := s[..|s| - 1], s[|s| - 1];
      InsertByPositionAdds(init, x);
      assert s == init + [last];
      assert multiset(s) == multiset(init) + multiset{last};
    }
  }

  /** Inserting into a sorted list keeps it sorted. */
  lemma {:induction false} InsertByPositionSorted(s: seq<GridItem>, x: GridItem)
    requires SortedByPosition(s)
    ensures SortedByPosition(InsertByPosition(s, x))
    decreases |s|
  {
    if |s| > 0 && !Precedes(s[|s| - 1], x) {
      var init, last := s[..|s| - 1], s[|s| - 1];
      assert SortedByPosition(init);
      InsertByPositionSorted(init, x);
      InsertByPositionAdds(init, x);
      var rest := InsertByPosition(init, x);
      assert forall y :: y in rest ==> Precedes(y, last) by {
        forall y | y in rest ensures Precedes(y, last) {
          assert y in multiset(rest);
          if y != x {
            assert y in multiset(init);
            var j :| 0 <= j < |init| && init[j] == y;
            assert s[j] == y;
          }
        }
      }
      var r := rest + [last];
      assert SortedByPosition(r) by {
        forall i, j | 0 <= i < j < |r| ensures Precedes(r[i], r[j]) {
          if j == |r| - 1 {
            assert r[i] in rest;
          } else {
            assert r[i] == rest[i] && r[j] == rest[j];
          }
        }
      }
    }
  }

  /** The stable sort `sort((a, b) => a.row - b.row || a.col - b.col)`. */
  function SortByPosition(s: seq<GridItem>): (r: seq<GridItem>)
    ensures |r| == |s|
    decreases |s|
  {
    if |s| == 0 then []
    else InsertByPosition(SortByPosition(s[..|s| - 1]), s[|s| - 1])
  }

  /** The sort orders the items by position. */
  lemma {:induction false} SortByPositionSorted(s: seq<GridItem>)
    ensures SortedByPosition(SortByPosition(s))
    decreases |s|
  {
    if |s| > 0 {
      SortByPositionSorted(s[..|s| - 1]);
      InsertByPositionSorted(SortByPosition(s[..|s| - 1]), s[|s| - 1]);
    }
  }

  /** The sort keeps every item as often as it occurs. */
  lemma {:induction false} SortByPositionPermutes(s: seq<GridItem>)
    ensures multiset(SortByPosition(s)) == multiset(s)
    decreases |s|
  {
    if |s| > 0 {
      var init := s[..|s| - 1];
      SortByPositionPermutes(init);
      InsertByPositionAdds(SortByPosition(init), s[|s| - 1]);
      assert s == init + [s[|s| - 1]];
      assert multiset(s) == multiset(init) + multiset{s[|s| - 1]};
    }
  }

  lemma SortMembership(s: seq<GridItem>)
    ensures forall x :: x in SortByPosition(s) <==> x in s
  {
    var r := SortByPosition(s);
    SortByPositionPermutes(s);
    forall x ensures x in r <==> x in s {
      assert x in r <==> x in multiset(r);
      assert x in s <==> x in multiset(s);
    }
  }

  // ---------------------------------------------------------------------------
  // Stages
  // ---------------------------------------------------------------------------

  /** The overrides written so far and the layout the source currently holds. */
  datatype Stage = Stage(overrides: Overrides, layout: GridLayoutResult)

  /** The held layout is the simulation under the held overrides. */
  predicate Consistent(s: Stage, count: nat, patternIndex: int, numColumns: nat)
    requires numColumns >= 1
  {
    s.layout == Simulate(count, patternIndex, numColumns, s.overrides)
  }

  /** A pass either returns the map or hands a stage to the next pass. */
  datatype Outcome = Done(result: Overrides) | Continue(stage: Stage) {
    function Written(): Overrides {
      match this
      case Done(r) => r
      case Continue(s) => s.overrides
    }
  }

  /** A list whose `i`-th item carries index `i` is index-ordered and found at its own index. */
  lemma NumberedItems(items: seq<GridItem>)
    requires forall i :: 0 <= i < |items| ==> items[i].index == i
    ensures IndexOrdered(items)
    ensures forall x :: x in items ==> x.index < |items| && items[x.index] == x
  {
    forall x | x in items ensures x.index < |items| && items[x.index] == x {
      var i :| 0 <= i < |items| && items[i] == x;
    }
  }

  /**
   * `simulateGridLayout(photoCount, patternIndex, numColumns, overrides)` as the
   * next stage; its ensures only spares callers from unfolding `Consistent`.
   */
  function Restage(count: nat, patternIndex: int, numColumns: nat, overrides: Overrides): (t: Stage)
    requires numColumns >= 1
    ensures t.overrides == overrides && Consistent(t, count, patternIndex, numColumns)
  {
    Stage(overrides, Simulate(count, patternIndex, numColumns, overrides))
  }

  /** The photos of a simulated layout, in index order, each with its own index below the count. */
  lemma LayoutIndices(count: nat, patternIndex: int, numColumns: nat, overrides: Overrides)
    requires numColumns >= 1
    ensures var res := Simulate(count, patternIndex, numColumns, overrides);
      IndexOrdered(res.allItems) &&
      (forall x :: x in res.allItems ==> x.index < count && res.allItems[x.index] == x) &&
      (forall x :: x in res.lastRowItems ==> x in res.allItems)
  {
    var res := Simulate(count, patternIndex, numColumns, overrides);
    LastRowMembership(count, patternIndex, numColumns, overrides);
    NumberedItems(res.allItems);
  }

  /** The items of any row of a simulated layout, and of its last row, are photos. */
  lemma RowsArePhotos(count: nat, patternIndex: int, numColumns: nat, overrides: Overrides, row: nat)
    requires numColumns >= 1
    ensures var res := Simulate(count, patternIndex, numColumns, overrides);
      (forall x :: x in RowItems(res.allItems, row) ==> x.index < count) &&
      (forall x :: x in res.lastRowItems ==> x.index < count)
  {
    var res := Simulate(count, patternIndex, numColumns, overrides);
    LayoutIndices(count, patternIndex, numColumns, overrides);
    RowItemsMembership(res.allItems, row);
  }

  // ---------------------------------------------------------------------------
  // Pass 1: tall items reaching into a gap row
  // ---------------------------------------------------------------------------

  /** What step 1 writes: every tall item touching a gap row, unstacked. */
  function GapFixes(overrides: Overrides, items: seq<GridItem>, gapRows: set<nat>): Overrides {
    Apply(overrides, Filter(items, TouchesGap(gapRows)), Unstack)
  }

  /** An `Unstack` entry makes a photo one row high, keeps its wideness and drops any full width. */
  lemma UnstackEntrySpans(overrides: Overrides, x: GridItem, patternIndex: int)
    requires x.index in overrides && overrides[x.index] == OverrideFor(Unstack, x)
    ensures RowSpanOf(x.index, patternIndex, overrides) == 1
    ensures IsWide(x.index, patternIndex, overrides) <==> x.colSpan == 2
    ensures !IsFullWidth(x.index, overrides)
  {
  }

  /** A `Flatten` entry makes a photo a single cell. */
  lemma FlattenEntrySpans(overrides: Overrides, x: GridItem, patternIndex: int, numColumns: nat)
    requires numColumns >= 1
    requires x.index in overrides && overrides[x.index] == OverrideFor(Flatten, x)
    ensures RowSpanOf(x.index, patternIndex, overrides) == 1
    ensures ColSpanOf(x.index, patternIndex, numColumns, overrides) == 1
  {
  }

  /** Every item a filter keeps from an index-ordered list ends up with the fix's entry. */
  lemma FilteredEntry(overrides: Overrides, items: seq<GridItem>, keep: Criterion, fix: Fix, x: GridItem)
    requires IndexOrdered(items)
    requires x in items && Keeps(keep, x)
    ensures var written := Apply(overrides, Filter(items, keep), fix);
      x.index in written && written[x.index] == OverrideFor(fix, x)
  {
    var kept := Filter(items, keep);
    FilterMembership(items, keep);
    FilterOrdered(items, keep);
    assert x in kept;
    var i :| 0 <= i < |kept| && kept[i] == x;
    ApplyEffect(overrides, kept, fix, i);
  }

  /**
   * Every tall item touching a gap row is written down as one row high,
   * keeping its wideness and losing any full width.
   */
  lemma GapFixesUnstack(overrides: Overrides, items: seq<GridItem>, gapRows: set<nat>, patternIndex: int, x: GridItem)
    requires IndexOrdered(items)
    requires x in items && x.rowSpan == 2 && (x.row in gapRows || x.row + 1 in gapRows)
    ensures var written := GapFixes(overrides, items, gapRows);
      RowSpanOf(x.index, patternIndex, written) == 1 &&
      (IsWide(x.index, patternIndex, written) <==> x.colSpan == 2) &&
      !IsFullWidth(x.index, written)
  {
    FilteredEntry(overrides, items, TouchesGap(gapRows), Unstack, x);
    UnstackEntrySpans(GapFixes(overrides, items, gapRows), x, patternIndex);
  }

  /**
   * Step 1: when there are gap rows, unstack every tall item touching one and
   * re-simulate; stop if that leaves no gap and no empty slot.
   */
  function GapPass(count: nat, patternIndex: int, numColumns: nat, s: Stage): (o: Outcome)
    requires numColumns >= 1
    requires Consistent(s, count, patternIndex, numColumns)
    ensures o.Continue? ==> Consistent(o.stage, count, patternIndex, numColumns)
    ensures o.Done? ==>
      var res := Simulate(count, patternIndex, numColumns, o.result);
      res.emptySlots == 0 && !DetectGaps(res.allItems, res.totalRows, numColumns).hasGaps
    ensures DetectGaps(s.layout.allItems, s.layout.totalRows, numColumns).hasGaps ==>
      o.Written() == GapFixes(s.overrides, s.layout.allItems, DetectGaps(s.layout.allItems, s.layout.totalRows, numColumns).gapRows)
    ensures !DetectGaps(s.layout.allItems, s.layout.totalRows, numColumns).hasGaps ==> o == Continue(s)
    ensures WellFormed(s.overrides, count, numColumns) ==> WellFormed(o.Written(), count, numColumns)
  {
    var report := DetectGaps(s.layout.allItems, s.layout.totalRows, numColumns);
    if report.hasGaps then
      var overrides := GapFixes(s.overrides, s.layout.allItems, report.gapRows);
      assert WellFormed(s.overrides, count, numColumns) ==> WellFormed(overrides, count, numColumns) by {
        if WellFormed(s.overrides, count, numColumns) {
          LayoutIndices(count, patternIndex, numColumns, s.overrides);
          FilteredWellFormed(s.overrides, s.layout.allItems, TouchesGap(report.gapRows), Unstack, count, numColumns);
        }
      }
      Resimulate(count, patternIndex, numColumns, overrides)
    else Continue(s)
  }

  /** Re-simulates after step 1 and stops when no gap and no empty slot is left. */
  function Resimulate(count: nat, patternIndex: int, numColumns: nat, overrides: Overrides): (o: Outcome)
    requires numColumns >= 1
    ensures o.Written() == overrides
    ensures o.Continue? ==> Consistent(o.stage, count, patternIndex, numColumns)
    ensures o.Done? ==>
      var res := Simulate(count, patternIndex, numColumns, o.result);
      res.emptySlots == 0 && !DetectGaps(res.allItems, res.totalRows, numColumns).hasGaps
  {
    var re := Simulate(count, patternIndex, numColumns, overrides);
    if !DetectGaps(re.allItems, re.totalRows, numColumns).hasGaps && re.emptySlots == 0 then Done(overrides)
    else Continue(Stage(overrides, re))
  }

  /** Step 1 writes every tall item touching a gap row as one row high, keeping its wideness. */
  lemma GapPassUnstacks(count: nat, patternIndex: int, numColumns: nat, s: Stage, x: GridItem)
    requires numColumns >= 1
    requires Consistent(s, count, patternIndex, numColumns)
    requires x in s.layout.allItems && x.rowSpan == 2
    requires var gapRows := DetectGaps(s.layout.allItems, s.layout.totalRows, numColumns).gapRows;
      x.row in gapRows || x.row + 1 in gapRows
    ensures var written := GapPass(count, patternIndex, numColumns, s).Written();
      RowSpanOf(x.index, patternIndex, written) == 1 &&
      (IsWide(x.index, patternIndex, written) <==> x.colSpan == 2) &&
      !IsFullWidth(x.index, written)
  {
    var report := DetectGaps(s.layout.allItems, s.layout.totalRows, numColumns);
    assert report.hasGaps;
    LayoutIndices(count, patternIndex, numColumns, s.overrides);
    GapFixesUnstack(s.overrides, s.layout.allItems, report.gapRows, patternIndex, x);
  }

  // ---------------------------------------------------------------------------
  // Pass 2: the last three rows
  // ---------------------------------------------------------------------------

  /** What step 2 writes: every big item starting in the last three rows, flattened. */
  function TailFixes(overrides: Overrides, layout: GridLayoutResult): Overrides {
    Apply(overrides, Filter(layout.allItems, BigInLastThreeRows(layout.totalRows)), Flatten)
  }

  /** Every big item starting in the last three rows is written down as a single cell. */
  lemma TailFixesFlatten(overrides: Overrides, layout: GridLayoutResult, numColumns: nat, patternIndex: int, x: GridItem)
    requires numColumns >= 1
    requires IndexOrdered(layout.allItems)
    requires x in layout.allItems
    requires layout.totalRows - 3 <= x.row <= layout.totalRows - 1 && (x.rowSpan > 1 || x.colSpan > 1)
    ensures var written := TailFixes(overrides, layout);
      RowSpanOf(x.index, patternIndex, written) == 1 && ColSpanOf(x.index, patternIndex, numColumns, written) == 1
  {
    FilteredEntry(overrides, layout.allItems, BigInLastThreeRows(layout.totalRows), Flatten, x);
    FlattenEntrySpans(TailFixes(overrides, layout), x, patternIndex, numColumns);
  }

  /** Step 2: with at least three rows, flatten the big items of the last three and re-simulate. */
  function TailPass(count: nat, patternIndex: int, numColumns: nat, s: Stage): (t: Stage)
    requires numColumns >= 1
    requires Consistent(s, count, patternIndex, numColumns)
    ensures Consistent(t, count, patternIndex, numColumns)
    ensures s.layout.totalRows < 3 ==> t == s
    ensures s.layout.totalRows >= 3 ==> t.overrides == TailFixes(s.overrides, s.layout)
    ensures WellFormed(s.overrides, count, numColumns) ==> WellFormed(t.overrides, count, numColumns)
  {
    var layout := s.layout;
    if layout.totalRows >= 3 then
      var big := Filter(layout.allItems, BigInLastThreeRows(layout.totalRows));
      var overrides := TailFixes(s.overrides, layout);
      if |big| > 0 then
        assert WellFormed(s.overrides, count, numColumns) ==> WellFormed(overrides, count, numColumns) by {
          if WellFormed(s.overrides, count, numColumns) {
            LayoutIndices(count, patternIndex, numColumns, s.overrides);
            FilteredWellFormed(s.overrides, layout.allItems, BigInLastThreeRows(layout.totalRows), Flatten, count, numColumns);
          }
        }
        Restage(count, patternIndex, numColumns, overrides)
      else s
    else s
  }

  /** After step 2, every big item that started in the last three rows is placed as a single cell. */
  lemma TailPassFlattens(count: nat, patternIndex: int, numColumns: nat, s: Stage, x: GridItem)
    requires numColumns >= 1
    requires Consistent(s, count, patternIndex, numColumns)
    requires s.layout.totalRows >= 3 && x in s.layout.allItems
    requires s.layout.totalRows - 3 <= x.row <= s.layout.totalRows - 1 && (x.rowSpan > 1 || x.colSpan > 1)
    ensures var t := TailPass(count, patternIndex, numColumns, s);
      x.index < count && t.layout.allItems[x.index].rowSpan == 1 && t.layout.allItems[x.index].colSpan == 1
  {
    LayoutIndices(count, patternIndex, numColumns, s.overrides);
    TailFixesFlatten(s.overrides, s.layout, numColumns, patternIndex, x);
    var t := TailPass(count, patternIndex, numColumns, s);
    SimulatedSpans(count, patternIndex, numColumns, t.overrides, x.index);
  }

  // ---------------------------------------------------------------------------
  // Pass 3: the last two rows of a three-column grid
  // ---------------------------------------------------------------------------

  /** The cells of the last two rows that step 3 counts as empty. */
  function CombinedEmpty(layout: GridLayoutResult, numColumns: nat): int
    requires layout.totalRows >= 2
  {
    numColumns * 2 - (SumColSpans(RowItems(layout.allItems, layout.totalRows - 2)) + SumColSpans(layout.lastRowItems))
  }

  /** The (items, empty cells) pairs step 3 handles. */
  predicate JointCase(items: nat, empty: int) {
    (items == 3 && empty == 3) || (items == 4 && empty == 2) || (items == 4 && empty == 1) || (items == 5 && empty == 1)
  }

  /**
   * Step 3: in three columns with at least two rows and some empty cell in
   * the last two, handle four (items, empty cells) cases and return the map;
   * `None` lets the fallback pass run.
   */
  function JointPass(s: Stage, numColumns: nat): (r: Option<Overrides>)
    ensures r.Some? ==> numColumns == 3 && s.layout.totalRows >= 2
    ensures r.Some? ==> (s.layout.totalRows >= 2 &&
      JointCase(|RowItems(s.layout.allItems, s.layout.totalRows - 2)| + |s.layout.lastRowItems|, CombinedEmpty(s.layout, numColumns)))
    ensures (numColumns == 3 && s.layout.totalRows >= 2 &&
      JointCase(|RowItems(s.layout.allItems, s.layout.totalRows - 2)| + |s.layout.lastRowItems|, CombinedEmpty(s.layout, numColumns))) ==> r.Some?
  {
    if s.layout.totalRows >= 2 && numColumns == 3 then
      JointPlan(s.overrides, RowItems(s.layout.allItems, s.layout.totalRows - 2), s.layout.lastRowItems)
    else None
  }

  /** Step 3 only writes entries for photos of the last two rows. */
  lemma JointPassWellFormed(s: Stage, count: nat, numColumns: nat)
    requires WellFormed(s.overrides, count, numColumns)
    requires s.layout.totalRows >= 2 ==> forall x :: x in RowItems(s.layout.allItems, s.layout.totalRows - 2) ==> x.index < count
    requires forall x :: x in s.layout.lastRowItems ==> x.index < count
    ensures var r := JointPass(s, numColumns); r.Some? ==> WellFormed(r.value, count, numColumns)
  {
    if s.layout.totalRows >= 2 && numColumns == 3 {
      JointPlanWellFormed(s.overrides, RowItems(s.layout.allItems, s.layout.totalRows - 2), s.layout.lastRowItems, count);
      assert JointPass(s, numColumns) == JointPlan(s.overrides, RowItems(s.layout.allItems, s.layout.totalRows - 2), s.layout.lastRowItems);
    } else {
      assert JointPass(s, numColumns).None?;
    }
  }

  /** The empty cells of a three-column second-to-last row and last row. */
  function EmptyOfThree(second: seq<GridItem>, last: seq<GridItem>): int {
    6 - (SumColSpans(second) + SumColSpans(last))
  }

  /**
   * The four cases of step 3 in three columns over the items of the last two
   * rows, sorted by position. The source first asks for some empty cell;
   * every case has one.
   */
  function JointPlan(ov: Overrides, second: seq<GridItem>, last: seq<GridItem>): (r: Option<Overrides>)
    ensures r.Some? <==> JointCase(|second| + |last|, EmptyOfThree(second, last))
  {
    var both := SortByPosition(second + last);
    var secondEmpty := 3 - SumColSpans(second);
    var totalEmpty := EmptyOfThree(second, last);
    if |both| == 3 && totalEmpty == 3 then
      Some(Apply(ov, both, Widen))
    else if |both| == 4 && totalEmpty == 2 then
      Some(Apply(Apply(ov, both[..2], Widen), both[2..], Flatten))
    else if |both| == 4 && totalEmpty == 1 then
      if secondEmpty == 0 then
        Some(if |last| > 0 then SetFix(ov, last[|last| - 1], Widen) else ov)
      else
        var ov1 := if |second| > 0 then SetFix(ov, second[|second| - 1], Widen) else ov;
        Some(if |last| > 0 then SetFix(ov1, last[0], Widen) else ov1)
    else if |both| == 5 && totalEmpty == 1 then
      Some(Apply(Apply(ov, both[..1], Widen), both[1..], Flatten))
    else None
  }

  lemma JointPlanWellFormed(ov: Overrides, second: seq<GridItem>, last: seq<GridItem>, count: nat)
    requires WellFormed(ov, count, 3)
    requires forall x :: x in second ==> x.index < count
    requires forall x :: x in last ==> x.index < count
    ensures var plan := JointPlan(ov, second, last);
      plan.Some? ==> WellFormed(plan.value, count, 3)
  {
    var n, totalEmpty := |second| + |last|, EmptyOfThree(second, last);
    if (n == 3 && totalEmpty == 3) || (n == 4 && totalEmpty == 2) || (n == 5 && totalEmpty == 1) {
      JointRunsWellFormed(ov, second, last, count);
    } else if n == 4 && totalEmpty == 1 {
      JointEndsWellFormed(ov, second, last, count);
    } else {
      assert JointPlan(ov, second, last).None?;
    }
  }

  /** The cases of step 3 that widen and flatten runs of the sorted items. */
  lemma JointRunsWellFormed(ov: Overrides, second: seq<GridItem>, last: seq<GridItem>, count: nat)
    requires WellFormed(ov, count, 3)
    requires forall x :: x in second ==> x.index < count
    requires forall x :: x in last ==> x.index < count
    requires var n, e := |second| + |last|, EmptyOfThree(second, last);
      (n == 3 && e == 3) || (n == 4 && e == 2) || (n == 5 && e == 1)
    ensures var plan := JointPlan(ov, second, last);
      plan.Some? && WellFormed(plan.value, count, 3)
  {
    var both := SortByPosition(second + last);
    var totalEmpty := EmptyOfThree(second, last);
    SortedPhotos(second, last, count);
    if |both| == 3 {
      ApplyWellFormed(ov, both, Widen, count, 3);
      assert JointPlan(ov, second, last) == Some(Apply(ov, both, Widen));
    } else if |both| == 4 {
      WidenThenFlattenWellFormed(ov, both, 2, count);
      assert JointPlan(ov, second, last) == Some(Apply(Apply(ov, both[..2], Widen), both[2..], Flatten));
    } else {
      WidenThenFlattenWellFormed(ov, both, 1, count);
      assert JointPlan(ov, second, last) == Some(Apply(Apply(ov, both[..1], Widen), both[1..], Flatten));
    }
  }

  /** The case of step 3 that widens the ends of the two rows. */
  lemma JointEndsWellFormed(ov: Overrides, second: seq<GridItem>, last: seq<GridItem>, count: nat)
    requires WellFormed(ov, count, 3)
    requires forall x :: x in second ==> x.index < count
    requires forall x :: x in last ==> x.index < count
    requires |second| + |last| == 4 && EmptyOfThree(second, last) == 1
    ensures var plan := JointPlan(ov, second, last);
      plan.Some? && WellFormed(plan.value, count, 3)
  {
    if |second| > 0 {
      assert second[|second| - 1] in second;
    }
    if |last| > 0 {
      assert last[0] in last && last[|last| - 1] in last;
    }
  }

  /** Sorting the photos of two rows together yields photos. */
  lemma SortedPhotos(second: seq<GridItem>, last: seq<GridItem>, count: nat)
    requires forall x :: x in second ==> x.index < count
    requires forall x :: x in last ==> x.index < count
    ensures forall x :: x in SortByPosition(second + last) ==> x.index < count
  {
    SortMembership(second + last);
  }

  /** Widening the first `k` photos and flattening the rest keeps a map well formed. */
  lemma WidenThenFlattenWellFormed(ov: Overrides, both: seq<GridItem>, k: nat, count: nat)
    requires WellFormed(ov, count, 3)
    requires k <= |both|
    requires forall x :: x in both ==> x.index < count
    ensures WellFormed(Apply(Apply(ov, both[..k], Widen), both[k..], Flatten), count, 3)
  {
    assert forall x :: x in both[..k] ==> x in both;
    assert forall x :: x in both[k..] ==> x in both;
    ApplyWellFormed(ov, both[..k], Widen, count, 3);
    ApplyWellFormed(Apply(ov, both[..k], Widen), both[k..], Flatten, count, 3);
  }

  /** No two different items carry the same photo index. */
  predicate IndexUnique(items: seq<GridItem>) {
    forall y, z :: y in items && z in items && y.index == z.index ==> y == z
  }

  /** With unique indices, every listed item ends up with the entry the fix writes for it. */
  lemma {:induction false} ApplyMember(overrides: Overrides, items: seq<GridItem>, fix: Fix, x: GridItem)
    requires IndexUnique(items) && x in items
    ensures Apply(overrides, items, fix)[x.index] == OverrideFor(fix, x)
    decreases |items|
  {
    var next := SetFix(overrides, items[0], fix);
    assert items == [items[0]] + items[1..];
    if x in items[1..] {
      ApplyMember(next, items[1..], fix, x);
    } else {
      assert x == items[0];
      forall y | y in items[1..] ensures y.index != x.index {
        assert y in items;
      }
      ApplyElsewhere(next, items[1..], fix, x.index);
    }
  }

  /** A `Widen` entry makes a photo one row high and two columns wide in three columns. */
  lemma WidenEntrySpans(overrides: Overrides, x: GridItem, patternIndex: int)
    requires x.index in overrides && overrides[x.index] == OverrideFor(Widen, x)
    ensures RowSpanOf(x.index, patternIndex, overrides) == 1
    ensures ColSpanOf(x.index, patternIndex, 3, overrides) == 2
  {
  }

  /**
   * Step 3 with three items and three empty cells: every item of the two rows
   * becomes one row high and two columns wide, so the three fill both rows.
   */
  lemma JointThreeWidens(ov: Overrides, second: seq<GridItem>, last: seq<GridItem>, patternIndex: int, x: GridItem)
    requires IndexUnique(second + last)
    requires |second| + |last| == 3 && EmptyOfThree(second, last) == 3
    requires x in second + last
    ensures var plan := JointPlan(ov, second, last);
      plan.Some? &&
      RowSpanOf(x.index, patternIndex, plan.value) == 1 && ColSpanOf(x.index, patternIndex, 3, plan.value) == 2
  {
    var both := SortByPosition(second + last);
    SortMembership(second + last);
    assert IndexUnique(both);
    assert JointPlan(ov, second, last) == Some(Apply(ov, both, Widen));
    ApplyMember(ov, both, Widen, x);
    WidenEntrySpans(Apply(ov, both, Widen), x, patternIndex);
  }

  /**
   * Step 3 with four items and one empty cell: a full second-to-last row
   * widens the last item of the last row; otherwise the first item of the last
   * row is widened, and so is the second-to-last row's last item.
   */
  lemma JointFourOneWidens(ov: Overrides, second: seq<GridItem>, last: seq<GridItem>, patternIndex: int)
    requires |second| + |last| == 4 && EmptyOfThree(second, last) == 1
    ensures var plan := JointPlan(ov, second, last);
      plan.Some? &&
      (SumColSpans(second) == 3 && |last| > 0 ==> ColSpanOf(last[|last| - 1].index, patternIndex, 3, plan.value) == 2) &&
      (SumColSpans(second) != 3 && |last| > 0 ==> ColSpanOf(last[0].index, patternIndex, 3, plan.value) == 2) &&
      (SumColSpans(second) != 3 && |second| > 0 && (|last| == 0 || second[|second| - 1].index != last[0].index) ==>
        ColSpanOf(second[|second| - 1].index, patternIndex, 3, plan.value) == 2)
  {
    var plan := JointPlan(ov, second, last).value;
    if SumColSpans(second) == 3 {
      if |last| > 0 {
        WidenEntrySpans(plan, last[|last| - 1], patternIndex);
      }
    } else {
      if |last| > 0 {
        WidenEntrySpans(plan, last[0], patternIndex);
      }
      if |second| > 0 && (|last| == 0 || second[|second| - 1].index != last[0].index) {
        WidenEntrySpans(plan, second[|second| - 1], patternIndex);
      }
    }
  }

  // ---------------------------------------------------------------------------
  // Pass 4: the last row alone
  // ---------------------------------------------------------------------------

  /** Case A: a lone last-row item narrower than the grid is widened to the whole row. */
  function LoneItemFix(overrides: Overrides, item: GridItem, numColumns: nat): Overrides {
    if item.colSpan < numColumns then
      if numColumns == 2 then SetFix(overrides, item, Widen)
      else if numColumns == 3 then SetFix(overrides, item, FullRow)
      else overrides
    else overrides
  }

  /** Both last-row items are single cells. */
  predicate AllSingle(items: seq<GridItem>) {
    forall i :: 0 <= i < |items| ==> items[i].rowSpan == 1 && items[i].colSpan == 1
  }

  /**
   * Case C: with empty slots left, widen the last item (two columns), make a
   * lone item full width (two empty of three), or close a single empty slot
   * of three columns; `None` when none of these applies.
   */
  function FillLastRow(overrides: Overrides, last: seq<GridItem>, emptySlots: int, numColumns: nat): (r: Option<Overrides>)
    ensures r.Some? <==> (emptySlots > 0 && |last| > 0 &&
      ((numColumns == 2 && emptySlots == 1) || (numColumns == 3 && (emptySlots == 1 || (emptySlots == 2 && |last| == 1)))))
  {
    if emptySlots > 0 && |last| > 0 then
      if numColumns == 2 && emptySlots == 1 then
        Some(SetFix(overrides, last[|last| - 1], Widen))
      else if numColumns == 3 then
        if emptySlots == 2 && |last| == 1 then Some(SetFix(overrides, last[0], FullRow))
        else if emptySlots == 1 then
          if |last| == 1 then Some(SetFix(overrides, last[0], Widen))
          else Some(SetFix(overrides, last[|last| - 1], FullRow))
        else None
      else None
    else None
  }

  /** Case D: if any last-row item is tall, unstack every last-row item. */
  function UnstackLastRow(overrides: Overrides, last: seq<GridItem>): Overrides {
    if exists i :: 0 <= i < |last| && last[i].rowSpan == 2 then Apply(overrides, last, Unstack) else overrides
  }

  /** Cases C and D on the held last row: fill it when a rule applies, else unstack it. */
  function LastRowFix(overrides: Overrides, last: seq<GridItem>, emptySlots: int, numColumns: nat): Overrides {
    match FillLastRow(overrides, last, emptySlots, numColumns)
    case Some(r) => r
    case None => UnstackLastRow(overrides, last)
  }

  /**
   * Step 4, cases A to D. Case B heightens the first of two single-cell items
   * that fill the row, and otherwise flattens two items of which one is not a
   * single cell and re-simulates before cases C and D.
   */
  function FallbackPass(count: nat, patternIndex: int, numColumns: nat, s: Stage): (r: Overrides)
    requires numColumns >= 1
  {
    var last := s.layout.lastRowItems;
    if |last| == 1 then LoneItemFix(s.overrides, last[0], numColumns)
    else if |last| == 2 && AllSingle(last) && s.layout.emptySlots == 0 then SetFix(s.overrides, last[0], Heighten)
    else
      var t := if |last| == 2 && !AllSingle(last) then Reflatten(count, patternIndex, numColumns, s) else s;
      LastRowFix(t.overrides, t.layout.lastRowItems, t.layout.emptySlots, numColumns)
  }

  /** Case B's flattening of the two last-row items, and the re-simulation after it. */
  function Reflatten(count: nat, patternIndex: int, numColumns: nat, s: Stage): (t: Stage)
    requires numColumns >= 1
    ensures Consistent(t, count, patternIndex, numColumns)
    ensures t.overrides == Apply(s.overrides, s.layout.lastRowItems, Flatten)
  {
    Restage(count, patternIndex, numColumns, Apply(s.overrides, s.layout.lastRowItems, Flatten))
  }

  /** Cases C and D only write entries for photos of the row they are given. */
  lemma LastRowFixWellFormed(overrides: Overrides, last: seq<GridItem>, emptySlots: int, numColumns: nat, count: nat)
    requires WellFormed(overrides, count, numColumns)
    requires forall x :: x in last ==> x.index < count
    ensures WellFormed(LastRowFix(overrides, last, emptySlots, numColumns), count, numColumns)
  {
    if FillLastRow(overrides, last, emptySlots, numColumns).None? {
      ApplyWellFormed(overrides, last, Unstack, count, numColumns);
    } else {
      assert last[0] in last && last[|last| - 1] in last;
    }
  }

  lemma FallbackPassWellFormed(count: nat, patternIndex: int, numColumns: nat, s: Stage)
    requires numColumns >= 1
    requires WellFormed(s.overrides, count, numColumns)
    requires forall x :: x in s.layout.lastRowItems ==> x.index < count
    ensures WellFormed(FallbackPass(count, patternIndex, numColumns, s), count, numColumns)
  {
    var last := s.layout.lastRowItems;
    if |last| == 1 {
      assert last[0] in last;
    } else if |last| == 2 && AllSingle(last) && s.layout.emptySlots == 0 {
      assert last[0] in last;
    } else if |last| == 2 && !AllSingle(last) {
      var t := Reflatten(count, patternIndex, numColumns, s);
      ApplyWellFormed(s.overrides, last, Flatten, count, numColumns);
      RowsArePhotos(count, patternIndex, numColumns, t.overrides, 0);
      LastRowFixWellFormed(t.overrides, t.layout.lastRowItems, t.layout.emptySlots, numColumns, count);
    } else {
      LastRowFixWellFormed(s.overrides, last, s.layout.emptySlots, numColumns, count);
    }
  }

  /**
   * Case A: in two or three columns a lone last-row item narrower than the
   * grid is made one row high and as wide as the grid.
   */
  lemma FallbackLoneItemSpansRow(count: nat, patternIndex: int, numColumns: nat, s: Stage)
    requires numColumns == 2 || numColumns == 3
    requires |s.layout.lastRowItems| == 1 && s.layout.lastRowItems[0].colSpan < numColumns
    ensures var r, x := FallbackPass(count, patternIndex, numColumns, s), s.layout.lastRowItems[0];
      RowSpanOf(x.index, patternIndex, r) == 1 && ColSpanOf(x.index, patternIndex, numColumns, r) == numColumns
  {
  }

  /** Case A leaves a lone item that already spans the grid, or any grid wider than three columns, alone. */
  lemma FallbackLoneItemKept(count: nat, patternIndex: int, numColumns: nat, s: Stage)
    requires numColumns >= 1
    requires |s.layout.lastRowItems| == 1
    requires s.layout.lastRowItems[0].colSpan >= numColumns || numColumns > 3
    ensures FallbackPass(count, patternIndex, numColumns, s) == s.overrides
  {
  }

  /**
   * Case B: two single-cell items that fill the last row make the first one
   * two rows high and one column wide.
   */
  lemma FallbackPairHeightens(count: nat, patternIndex: int, numColumns: nat, s: Stage)
    requires numColumns >= 1
    requires |s.layout.lastRowItems| == 2 && AllSingle(s.layout.lastRowItems) && s.layout.emptySlots == 0
    ensures var r, x := FallbackPass(count, patternIndex, numColumns, s), s.layout.lastRowItems[0];
      RowSpanOf(x.index, patternIndex, r) == 2 && ColSpanOf(x.index, patternIndex, numColumns, r) == 1
  {
  }

  /**
   * Case C in two columns: one empty slot makes the last item of the held last
   * row two columns wide, filling the row.
   */
  lemma FillTwoColumnsWidensLast(overrides: Overrides, last: seq<GridItem>, patternIndex: int)
    requires |last| > 0
    ensures var r := LastRowFix(overrides, last, 1, 2);
      RowSpanOf(last[|last| - 1].index, patternIndex, r) == 1 &&
      ColSpanOf(last[|last| - 1].index, patternIndex, 2, r) == 2
  {
  }

  /**
   * Case C in three columns: a lone item with two empty slots becomes one row
   * high and three columns wide, a lone item with one empty slot becomes two
   * columns wide, and with several items and one empty slot the last item
   * becomes full width.
   */
  lemma FillThreeColumns(overrides: Overrides, last: seq<GridItem>, emptySlots: int, patternIndex: int)
    requires |last| > 0
    requires emptySlots == 1 || (emptySlots == 2 && |last| == 1)
    ensures var r, x := LastRowFix(overrides, last, emptySlots, 3), last[|last| - 1];
      RowSpanOf(x.index, patternIndex, r) == 1 &&
      ColSpanOf(x.index, patternIndex, 3, r) == (if emptySlots == 1 && |last| == 1 then 2 else 3)
  {
  }

  /**
   * Case D: when no fill rule applies and some item of the held last row is
   * tall, every item of that row becomes one row high and keeps its wideness.
   */
  lemma UnstackLastRowFlattens(overrides: Overrides, last: seq<GridItem>, emptySlots: int, numColumns: nat, patternIndex: int, i: nat)
    requires IndexOrdered(last) && i < |last|
    requires FillLastRow(overrides, last, emptySlots, numColumns).None?
    requires exists k :: 0 <= k < |last| && last[k].rowSpan == 2
    ensures var r := LastRowFix(overrides, last, emptySlots, numColumns);
      RowSpanOf(last[i].index, patternIndex, r) == 1 &&
      (IsWide(last[i].index, patternIndex, r) <==> last[i].colSpan == 2) &&
      !IsFullWidth(last[i].index, r)
  {
    ApplyEffect(overrides, last, Unstack, i);
    UnstackEntrySpans(Apply(overrides, last, Unstack), last[i], patternIndex);
  }

  // ---------------------------------------------------------------------------
  // The four passes in order
  // ---------------------------------------------------------------------------

  /**
   * `createComprehensiveFixups`: the override map for a pattern. An album
   * without photos gets no overrides; every entry is for a photo, defines
   * `tall`, and only a three-column grid ever gets a full-width entry.
   */
  function CreateComprehensiveFixups(count: nat, patternIndex: int, numColumns: nat): (r: Overrides)
    requires numColumns >= 1
    ensures count == 0 ==> r == map[]
    ensures WellFormed(r, count, numColumns)
  {
    var base := Simulate(count, patternIndex, numColumns, map[]);
    if |base.lastRowItems| == 0 then map[]
    else
      var start := Stage(map[], base);
      match GapPass(count, patternIndex, numColumns, start)
      case Done(r) => r
      case Continue(s1) =>
        var s2 := TailPass(count, patternIndex, numColumns, s1);
        RowsArePhotos(count, patternIndex, numColumns, s2.overrides, if s2.layout.totalRows >= 2 then s2.layout.totalRows - 2 else 0);
        JointPassWellFormed(s2, count, numColumns);
        FallbackPassWellFormed(count, patternIndex, numColumns, s2);
        match JointPass(s2, numColumns)
        case Some(r) => r
        case None => FallbackPass(count, patternIndex, numColumns, s2)
  }
}
