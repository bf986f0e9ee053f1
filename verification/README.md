# Masonry photo grid: a verified model

This project is a Dafny model of the photo-grid layout engine of a photo
album web application (`src/lib/utils/masonry/`), together with two small
interaction helpers from the same code base.

The model covers four parts:

- **The masonry engine.** Given an album identifier, a photo count and a
  column count, the engine picks span shapes for the photos so that a dense
  CSS grid tiles cleanly. It takes these steps:
  - hashes the identifier to a starting pattern (`hash.ts`);
  - classifies every photo as tall, wide, big or full width under one of ten
    modulo-rule patterns and a map of per-photo overrides (`constants.ts`,
    `patterns.ts`);
  - simulates `grid-auto-flow: dense` first-fit placement (`simulation.ts`);
  - detects partly filled rows and decides whether a layout is "truly
    perfect" (`gaps.ts`);
  - searches the ten patterns cyclically for a truly perfect one
    (`perfect.ts`);
  - runs four ordered repair passes that produce an override map
    (`fixups.ts`);
  - reports the final configuration (`index.ts`).
- **The swipe recogniser** built by `createTouchGestureHandler`
  (`touchGestures.ts`). It is a pure state machine: each touch event maps a
  handler to a new handler and possibly one reported swipe.
- **The primary-click wrapper** (`photoClick.ts`). The wrapper's side effects
  (`preventDefault`, calling the handler) are returned as a list of effects
  in the order they happen.

The modules follow the source files:

| Module | File |
|---|---|
| `Wrappers` | `wrappers.dfy` (the `Option` type) |
| `Arith` | `arith.dfy` (facts about division) |
| `Patterns` | `patterns.dfy` |
| `Hash` | `hash.dfy` |
| `Simulation` | `simulation.dfy` |
| `Gaps` | `gaps.dfy` |
| `Perfect` | `perfect.dfy` |
| `Fixups` | `fixups.dfy` |
| `Masonry` | `masonry.dfy` |
| `TouchGestures` | `touch.dfy` |
| `PhotoClick` | `click.dfy` |

Three of the source's loops are modelled as methods and proved equal to
declarative definitions:

- `Hash.HashStringLoop`
- `Gaps.ScanGaps`
- `Perfect.FindPerfectPatternLoop`

The placement search loop is the function `Simulation.WrittenSearch`, cut
off after a given number of rows. Every other operation is a pure function.

## Model

| member | source | states |
|---|---|---|
| Patterns.TableShape | src/lib/utils/masonry/constants.ts:28-128 | There are exactly ten patterns. Each has two tall and two wide rules, and every rule has a modulus from {11, 13, 17, 19, 23, 29, 31, 37} and an offset below it. |
| Patterns.PatternAt | src/lib/utils/masonry/patterns.ts:163-164 | A pattern exists exactly for the indices 0..9, and it is the table's entry there. |
| Patterns.RuleProgression | src/lib/utils/masonry/constants.ts:11-15 | A rule with `offset < mod` matches exactly the indices `offset + t * mod`. |
| Patterns.RuleRecurs | src/lib/utils/masonry/constants.ts:11-15 | Every rule matches some index at or beyond any bound, so each rule fires infinitely often. |
| Patterns.MinOffset | src/lib/utils/masonry/constants.ts:28-128 | The smallest offset of a rule list is attained by one of its rules and bounds all of them. |
| Patterns.FirstMatchIsMinOffset | src/lib/utils/masonry/constants.ts:11-17 | For proper rules the first index any rule matches is the smallest offset: it matches, and no smaller index does. |
| Patterns.SignatureOf | src/lib/utils/masonry/constants.ts:28-128 | The first tall index and the first wide index of each of the ten patterns. |
| Patterns.FirstSpecialIndices | src/lib/utils/masonry/patterns.ts:153-184 | Under each pattern, the signature indices are tall and wide respectively, and no earlier index is. |
| Patterns.SignatureTableInjective | src/lib/utils/masonry/constants.ts:28-128 | The pattern can be recovered from its signature, so signatures identify patterns. |
| Patterns.SignaturesDistinct | src/lib/utils/masonry/constants.ts:28-128 | Two different patterns have different signatures. |
| Patterns.SignatureSmall | src/lib/utils/masonry/constants.ts:28-128 | Both signature indices of every pattern lie below 100. |
| Patterns.EarlierSpecialDiffers | src/lib/utils/masonry/patterns.ts:153-184 | A pattern's first tall (wide) index is not tall (wide) under a pattern whose first one comes later. |
| Patterns.PatternsDistinct | src/lib/utils/masonry.spec.ts:143-166 | Any two different patterns disagree on tallness or wideness at some index below 100. |
| Patterns.TallPrecedence | src/lib/utils/masonry/patterns.ts:153-166 | A defined `tall` override is returned unchanged. Otherwise an index is tall iff some tall rule of the pattern matches. |
| Patterns.WidePrecedence | src/lib/utils/masonry/patterns.ts:171-184 | The same for `wide`, using the wide rules and the `wide` override. |
| Patterns.OutOfRangePattern | src/lib/utils/masonry/patterns.ts:163-164 | With no override, a pattern index outside 0..9 makes nothing tall and nothing wide. |
| Patterns.FullWidthOnlyByOverride | src/lib/utils/masonry/patterns.ts:201-204 | An item is full width iff it has an override whose `fullWidth` is true. |
| Patterns.Pattern0Examples | src/lib/utils/masonry.spec.ts:70-76 | Under pattern 0, indices 4, 17, 10 and 29 are tall; 2, 19, 6 and 29 are wide; 29 is big; 4 and 2 are not big; 0, 1 and 2 are not tall. |
| Hash.Wrap32 | src/lib/utils/masonry/hash.ts:10-11 | The result is a signed 32-bit value congruent to its argument modulo 2^32, and equal to it when it already fits. |
| Hash.CodeUnitsOf | src/lib/utils/masonry/hash.ts:9 | A character gives one or two UTF-16 code units below 0x10000, and exactly itself when it lies below 0x10000. |
| Hash.HashAccumulator | src/lib/utils/masonry/hash.ts:8-12 | The accumulator always stays a signed 32-bit value. |
| Hash.HashStep | src/lib/utils/masonry/hash.ts:10-11 | Each code unit moves the accumulator to the 32-bit wrap of `31 * h + unit`. |
| Hash.HashString | src/lib/utils/masonry/hash.ts:6-14 | The hash lies in 0..2^31, and the empty string hashes to 0. |
| Hash.HashStringLoop | src/lib/utils/masonry/hash.ts:6-14 | The source's `charCodeAt` loop computes `HashString`, and its result is at most 2^31. |
| Hash.PatternIndexOf | src/lib/utils/masonry/hash.ts:20-22 | The pattern index lies in 0..9. It is 0 for an absent or empty identifier, and otherwise the hash modulo 10. |
| Hash.OddLastUnitsHashApart | src/lib/utils/masonry/hash.ts:8-13 | Two unit sequences that differ only in a last unit, by an odd amount, have different absolute accumulators. |
| Hash.AlbumHashesDiffer | src/lib/utils/masonry.spec.ts:21-25 | `"album-1"` and `"album-2"` hash differently. |
| Simulation.ColSpanOf | src/lib/utils/masonry/simulation.ts:73-79 | The placed column span lies between 1 and the column count. It equals the source's span (full width, else 2 if wide, else 1) whenever that span fits the grid. |
| Simulation.RowCells | src/lib/utils/masonry/simulation.ts:32-42 | Exactly the cells of one row between two columns. |
| Simulation.CellsFrom | src/lib/utils/masonry/simulation.ts:32-42 | Exactly the cells of an item's rectangle from a given row down. |
| Simulation.OccupancyMembership | src/lib/utils/masonry/simulation.ts:28-42 | A cell is occupied iff some placed item's rectangle covers it. |
| Simulation.Extent | src/lib/utils/masonry/simulation.ts:32-42 | Every placed item ends at or above the extent. |
| Simulation.OccupancyBelowExtent | src/lib/utils/masonry/simulation.ts:28-42 | Every occupied cell lies above the extent, so the rows from the extent down are free. |
| Simulation.FirstFitInRow | src/lib/utils/masonry/simulation.ts:52-65 | Returns the first column from a start at which the rectangle fits, with none fitting before it. `None` means none fits in the row. |
| Simulation.FindPosition | src/lib/utils/masonry/simulation.ts:44-69 | Returns a fitting position no lower than the extent, such that no earlier position in row-major order fits. |
| Simulation.WrittenSearch | src/lib/utils/masonry/simulation.ts:49-68 | The source's search as written, cut off after `fuel` rows. Any position it returns fits, within the rows searched. |
| Simulation.WrittenSearchDiverges | src/lib/utils/masonry/simulation.ts:49-68 | As written, a span wider than the grid is found in no row, however many rows are searched. |
| Simulation.OneColumnWideItemDiverges | src/lib/utils/masonry/simulation.ts:49-79 | In one column, photo 2 of pattern 0 gets the written span 2, and the source's search never returns for it. |
| Simulation.ClampedSearchFinds | src/lib/utils/masonry/simulation.ts:49-68 | With a span that fits, the source's loop ends by the extent and returns exactly `FindPosition`'s result. |
| Simulation.PlaceItem | src/lib/utils/masonry/simulation.ts:71-94 | Photo `i` gets index `i` and its classified spans, at the first free fitting position against the photos before it. |
| Simulation.PlaceAllValid | src/lib/utils/masonry/simulation.ts:71-95 | Every placed photo sits at its first fit against all photos placed before it. |
| Simulation.ValidPlacementAll | src/lib/utils/masonry/simulation.ts:71-95 | The recursive placement condition gives every item's placement against its prefix. |
| Simulation.PlacementAt | src/lib/utils/masonry/simulation.ts:82-94 | The placement condition for any single item of a valid placement. |
| Simulation.NoOverlap | src/lib/utils/masonry/simulation.ts:55-61 | No two placed items cover the same cell. |
| Simulation.PlacementShape | src/lib/utils/masonry/simulation.ts:71-91 | In a valid placement, item `i` carries index `i`. Row spans are 1 or 2, and every item lies inside the columns. |
| Simulation.MaxRow | src/lib/utils/masonry/simulation.ts:98 | The greatest starting row, attained by some item; 0 for no items. |
| Simulation.RowItemsMembership | src/lib/utils/masonry/simulation.ts:100 | The filtered items are exactly the items starting in that row. |
| Simulation.RowItemsOrdered | src/lib/utils/masonry/simulation.ts:100 | The filter keeps placement order. |
| Simulation.RowItemsSpans | src/lib/utils/masonry/simulation.ts:100 | The filter keeps items inside the columns. |
| Simulation.Interval | src/lib/utils/masonry/simulation.ts:38-40 | Exactly the columns between two bounds, and as many of them as their difference. |
| Simulation.ColumnSpanMembership | src/lib/utils/masonry/simulation.ts:38-40 | A column is spanned iff some item's column range contains it. |
| Simulation.ColumnSpanSize | src/lib/utils/masonry/simulation.ts:101 | Items that share no column span as many columns as their spans add up to. |
| Simulation.RowWidthBound | src/lib/utils/masonry/simulation.ts:101-102 | Column-disjoint items inside the grid have spans adding up to at most the column count. |
| Simulation.SameRowColumnDisjoint | src/lib/utils/masonry/simulation.ts:55-61 | Items starting in the same row of a valid placement share no column. |
| Simulation.LastRowFacts | src/lib/utils/masonry/simulation.ts:98-102 | The last row of a nonempty placement is nonempty and in placement order, and its spans add up to at most the column count. |
| Simulation.Simulate | src/lib/utils/masonry/simulation.ts:17-112 | One item per photo in index order, and `totalRows` is the greatest row plus 1 (1 for no photos). `lastRowItems` are the bottom row's items. `emptySlots` is the column count minus their spans and lies in 0..columns. `isPerfect` holds iff `emptySlots` is 0. |
| Simulation.LastRowMembership | src/lib/utils/masonry/simulation.ts:100 | The reported last row holds exactly the items whose row is the greatest row. |
| Simulation.SimulatePlacement | src/lib/utils/masonry/simulation.ts:71-95 | The simulated items form a valid first-fit placement. |
| Simulation.SimulatedSpans | src/lib/utils/masonry/simulation.ts:73-79 | Photo `i` has row span 2 iff it is tall, and the clamped column span of its classification. |
| Gaps.DetectGaps | src/lib/utils/masonry/gaps.ts:11-64 | Only rows above the last can be gap rows, and `hasGaps` holds iff some row is flagged. |
| Gaps.EmptyRowNotFlagged | src/lib/utils/masonry/gaps.ts:45-57 | A row with no covered cell inside the grid is never a gap row. |
| Gaps.OutsideCellsIgnored | src/lib/utils/masonry/gaps.ts:25-35 | An item covering no cell inside the rows and columns does not change the report. |
| Gaps.CoveredAppend | src/lib/utils/masonry/gaps.ts:25-35 | Painting one more item covers exactly the cells of that item in addition. |
| Gaps.PaintGrid | src/lib/utils/masonry/gaps.ts:18-35 | The painted grid has the given shape, and each in-grid cell is marked iff some item covers it. |
| Gaps.ScanRow | src/lib/utils/masonry/gaps.ts:39-51 | The row scan finds an empty cell iff the row has one, and a filled cell iff the row has one. |
| Gaps.ScanGaps | src/lib/utils/masonry/gaps.ts:11-64 | The source's paint-then-scan algorithm returns exactly the declarative report. |
| Gaps.TrulyPerfectIsPerfect | src/lib/utils/masonry/gaps.ts:80-82 | A truly perfect layout is perfect and holds at least one photo. |
| Gaps.RowAboveCovered | src/lib/utils/masonry/simulation.ts:49-68 | Under dense first fit, the row just above any placed item has a covered cell. |
| Gaps.RowsAboveCovered | src/lib/utils/masonry/simulation.ts:49-68 | Every row at or above a placed item's row has a covered cell. |
| Gaps.RowsAboveHoldSomething | src/lib/utils/masonry/simulation.ts:49-99 | Every row above the bottom row of a simulated layout has a covered cell. |
| Gaps.SpansCoverAllColumns | src/lib/utils/masonry/simulation.ts:101-103 | Column-disjoint items inside the grid whose spans add up to the column count reach every column. |
| Gaps.DisjointRowFillsRow | src/lib/utils/masonry/simulation.ts:101-103 | Such items, starting in one row, cover every cell of that row. |
| Gaps.RowItemsFillRow | src/lib/utils/masonry/simulation.ts:100-103 | In a valid placement, a row whose own items' spans add up to the column count is full. |
| Gaps.LastRowFull | src/lib/utils/masonry/simulation.ts:100-103 | With no empty slot, the bottom row of a simulated layout is full. |
| Gaps.UnflaggedRowFull | src/lib/utils/masonry/gaps.ts:53-57 | Without gap rows, a row above the last that holds something is full. |
| Gaps.FilledRowsFull | src/lib/utils/masonry/gaps.ts:38-58 | Without gap rows, a full bottom row under rows that each hold something makes every row full. |
| Gaps.TrulyPerfectFillsGrid | src/lib/utils/masonry/gaps.ts:66-88 | A simulated layout with no empty slot and no gap row covers every cell of its rectangle. |
| Gaps.ThreeColumnShapes | src/lib/utils/masonry/gaps.ts:90-105 | Last-row spans adding up to 3 that pass the one- and two-item tests are one full-width item or three single-column items. |
| Gaps.ThreeColumnLastRow | src/lib/utils/masonry/gaps.ts:72-108 | In three columns a truly perfect last row is one full-width item or three single-column items. |
| Gaps.LastRowSpans | src/lib/utils/masonry/simulation.ts:100-102 | Every last-row item of a simulated layout has a positive column span. |
| Perfect.JsRem | src/lib/utils/masonry/perfect.ts:24 | JavaScript's `%`: the remainder has the dividend's sign, is smaller than the modulus in size, and differs from the dividend by a multiple of it. |
| Perfect.Candidate | src/lib/utils/masonry/perfect.ts:24 | From a start in range, the candidate at step `k` is `(start + k) mod 10`, in 0..9. |
| Perfect.Trials | src/lib/utils/masonry/perfect.ts:23-37 | Step `k` succeeds iff its candidate's un-overridden layout is truly perfect. |
| Perfect.FirstTrue | src/lib/utils/masonry/perfect.ts:23-38 | The first successful step from a position, or `None` exactly when no step from there succeeds. |
| Perfect.FirstTrialIsFirstStep | src/lib/utils/masonry/perfect.ts:23-41 | The first successful trial is the first truly perfect step. When there is none, no step is truly perfect. |
| Perfect.FindPerfectPattern | src/lib/utils/masonry/perfect.ts:17-42 | Returns the candidate of the first truly perfect step, or the start when no step is truly perfect. A start in 0..9 gives a result in 0..9. |
| Perfect.FindPerfectPatternLoop | src/lib/utils/masonry/simulation.ts:126-151 | The source's `for` loop (the same in `perfect.ts` and `simulation.ts`) returns exactly `FindPerfectPattern`. |
| Perfect.CandidatesCoverAll | src/lib/utils/masonry/perfect.ts:23-24 | From a start in 0..9 the ten steps visit every pattern. |
| Perfect.PerfectFoundIfAny | src/lib/utils/masonry/perfect.ts:25-37 | If any pattern is truly perfect, the search returns one. Its layout is perfect and every row of its grid is full. |
| Perfect.NonePerfectKeepsStart | src/lib/utils/masonry/perfect.ts:40-41 | From a start in 0..9, when none of the patterns 0..9 is truly perfect, the search returns its start. |
| Fixups.Apply | src/lib/utils/masonry/fixups.ts:117-119 | Writing a fix for a list adds exactly the listed photos' indices to the map's keys. |
| Fixups.ApplyEffect | src/lib/utils/masonry/fixups.ts:117-119 | Every item of an index-ordered list ends up with exactly the entry its fix writes. The entry replaces the old one; it does not merge with it. |
| Fixups.ApplyElsewhere | src/lib/utils/masonry/fixups.ts:117-119 | Entries for photos not in the list are left as they were. |
| Fixups.ApplyMember | src/lib/utils/masonry/fixups.ts:171-173 | With unique photo indices, every listed item, in any order, ends up with the entry its fix writes. |
| Fixups.ApplyWellFormed | src/lib/utils/masonry/fixups.ts:64-324 | Writing an allowed fix for photos keeps a map well formed. |
| Fixups.SetFixWellFormed | src/lib/utils/masonry/fixups.ts:64-324 | Writing one allowed fix for a photo keeps a map well formed. |
| Fixups.FilterMembership | src/lib/utils/masonry/fixups.ts:110-113 | The filter keeps exactly the items that satisfy its criterion. |
| Fixups.FilterOrdered | src/lib/utils/masonry/fixups.ts:110-113 | The filter keeps placement order. |
| Fixups.FilteredWellFormed | src/lib/utils/masonry/fixups.ts:57-67 | Writing an allowed fix for the filtered photos keeps a map well formed. |
| Fixups.InsertByPositionAdds | src/lib/utils/masonry/fixups.ts:162-165 | Insertion adds exactly the new item to the multiset. |
| Fixups.InsertByPositionSorted | src/lib/utils/masonry/fixups.ts:162-165 | Inserting into a list sorted by (row, col) keeps it sorted. |
| Fixups.SortByPositionSorted | src/lib/utils/masonry/fixups.ts:162-165 | The sorted list is ordered by row, then column. |
| Fixups.SortByPositionPermutes | src/lib/utils/masonry/fixups.ts:162-165 | The sorted list is a permutation of the input. |
| Fixups.SortMembership | src/lib/utils/masonry/fixups.ts:162-165 | The sorted list has exactly the input's members. |
| Fixups.NumberedItems | src/lib/utils/masonry/simulation.ts:85-91 | A list whose `i`-th item has index `i` is index-ordered, and each member sits at its own index. |
| Fixups.LayoutIndices | src/lib/utils/masonry/simulation.ts:85-91 | A simulated layout's items are index-ordered photos, each found at its own index. |
| Fixups.RowsArePhotos | src/lib/utils/masonry/fixups.ts:149 | The items of any row of a simulated layout, and of its last row, are photos. |
| Fixups.UnstackEntrySpans | src/lib/utils/masonry/fixups.ts:64 | An unstack entry makes a photo one row high, keeps its wideness and drops full width. |
| Fixups.FlattenEntrySpans | src/lib/utils/masonry/fixups.ts:118 | A flatten entry makes a photo a single cell. |
| Fixups.WidenEntrySpans | src/lib/utils/masonry/fixups.ts:172 | A widen entry makes a photo one row high and two columns wide in three columns. |
| Fixups.FilteredEntry | src/lib/utils/masonry/fixups.ts:57-67 | Every item the filter keeps ends up with the fix's entry. |
| Fixups.GapFixesUnstack | src/lib/utils/masonry/fixups.ts:57-67 | Every tall item whose row or next row is a gap row gets one row high, keeping its wideness and losing full width. |
| Fixups.GapPass | src/lib/utils/masonry/fixups.ts:53-87 | With gap rows, step 1 writes exactly the unstack fixes for tall items touching them. It stops only when the re-simulation has no gap and no empty slot. Without gap rows it passes the stage on unchanged. It keeps the map well formed. |
| Fixups.Resimulate | src/lib/utils/masonry/fixups.ts:69-86 | Stops exactly when the re-simulated layout has no gap row and no empty slot; otherwise it hands on a consistent stage. |
| Fixups.GapPassUnstacks | src/lib/utils/masonry/fixups.ts:53-67 | After step 1, every tall item touching a gap row is one row high, keeps its wideness and is not full width. |
| Fixups.TailFixesFlatten | src/lib/utils/masonry/fixups.ts:108-119 | Every big, tall or wide item starting in the last three rows gets a single-cell entry. |
| Fixups.TailPass | src/lib/utils/masonry/fixups.ts:108-128 | With fewer than three rows, step 2 changes nothing. Otherwise its map is the flatten fixes for the last three rows' big items. The stage stays consistent and the map stays well formed. |
| Fixups.TailPassFlattens | src/lib/utils/masonry/fixups.ts:108-127 | After step 2, every big item that started in the last three rows is placed as a single cell. |
| Fixups.JointPass | src/lib/utils/masonry/fixups.ts:147-222 | Step 3 returns a map iff there are three columns and at least two rows, and the (items, empty cells) pair of the last two rows is (3,3), (4,2), (4,1) or (5,1). |
| Fixups.JointPlan | src/lib/utils/masonry/fixups.ts:161-221 | A plan exists exactly for the four handled (items, empty cells) cases. |
| Fixups.JointThreeWidens | src/lib/utils/masonry/fixups.ts:169-175 | With three items and three empty cells, every item of the two rows becomes one row high and two columns wide. |
| Fixups.JointFourOneWidens | src/lib/utils/masonry/fixups.ts:188-208 | With four items and one empty cell, a full second-to-last row widens the last row's last item in placement order. Otherwise the last row's first item, and the second-to-last row's last item, are widened. |
| Fixups.JointPassWellFormed | src/lib/utils/masonry/fixups.ts:147-222 | Step 3's map is well formed. |
| Fixups.JointPlanWellFormed | src/lib/utils/masonry/fixups.ts:161-221 | Every plan of step 3 is well formed. |
| Fixups.JointRunsWellFormed | src/lib/utils/masonry/fixups.ts:169-220 | The widen-and-flatten cases of step 3 produce a well-formed plan. |
| Fixups.JointEndsWellFormed | src/lib/utils/masonry/fixups.ts:189-208 | The row-ends case of step 3 produces a well-formed plan. |
| Fixups.FillLastRow | src/lib/utils/masonry/fixups.ts:282-318 | Case C applies exactly when the row has empty slots and items, and either two columns with one empty slot, or three columns with one empty slot or with two empty slots and one item. |
| Fixups.Reflatten | src/lib/utils/masonry/fixups.ts:266-277 | Flattening both last-row items and re-simulating yields a consistent stage with exactly those flatten entries. |
| Fixups.FallbackLoneItemSpansRow | src/lib/utils/masonry/fixups.ts:234-248 | In two or three columns, a lone last-row item narrower than the grid becomes one row high and as wide as the grid. |
| Fixups.FallbackLoneItemKept | src/lib/utils/masonry/fixups.ts:234-248 | A lone item that already spans the grid, or any grid wider than three columns, gets no new entry. |
| Fixups.FallbackPairHeightens | src/lib/utils/masonry/fixups.ts:254-264 | Two single-cell items filling the last row make the first one two rows high and one column wide. |
| Fixups.FillTwoColumnsWidensLast | src/lib/utils/masonry/fixups.ts:284-290 | In two columns with one empty slot, the last item of the row becomes one row high and two columns wide. |
| Fixups.FillThreeColumns | src/lib/utils/masonry/fixups.ts:293-316 | In three columns, a lone item with two empty slots becomes one row high and three columns wide. A lone item with one empty slot becomes two columns wide. With several items and one empty slot, the last item becomes full width. |
| Fixups.UnstackLastRowFlattens | src/lib/utils/masonry/fixups.ts:320-326 | When no fill rule applies and a last-row item is tall, every last-row item becomes one row high, keeps its wideness and is not full width. |
| Fixups.LastRowFixWellFormed | src/lib/utils/masonry/fixups.ts:280-326 | Cases C and D keep a map well formed. |
| Fixups.FallbackPassWellFormed | src/lib/utils/masonry/fixups.ts:228-326 | Step 4's map is well formed. |
| Fixups.CreateComprehensiveFixups | src/lib/utils/masonry/fixups.ts:20-329 | No photos give an empty map. Every key is a photo index, every entry defines `tall`, and `fullWidth` appears only in three columns. |
| Masonry.TriedPatterns | src/lib/utils/masonry/index.ts:52-56 | Ten entries, the `i`-th being the search's candidate `(initial + i) mod 10`. |
| Masonry.TriedPatternsArePermutation | src/lib/utils/masonry/index.ts:52-56 | The tried patterns list every pattern exactly once. |
| Masonry.FinalLayout | src/lib/utils/masonry/index.ts:49-64 | Skipping the re-simulation for an empty map gives the same layout as re-simulating with it. |
| Masonry.GetMasonryLayout | src/lib/utils/masonry/index.ts:37-74 | The pattern index is the result of the truly-perfect search started at the album's hashed pattern, so it lies in 0..9. The overrides are exactly the comprehensive fixups for that pattern, and they are well formed. `isPerfect` holds iff `emptySlots` is 0, which lies in 0..columns, and `totalRows` is at least 1. The tried patterns follow the hashed start. The statistics are those of the chosen pattern simulated with its overrides. |
| Masonry.HashedStartKeptWhenNonePerfect | src/lib/utils/masonry/index.ts:43-46 | When no pattern tiles truly perfectly, the layout keeps the pattern the album identifier hashes to. |
| Masonry.PerfectPatternChosenWhenAvailable | src/lib/utils/masonry/index.ts:43-46 | When some pattern tiles truly perfectly, the chosen pattern does too, and every row of its un-overridden grid is full. |
| Masonry.EmptyAlbumLayout | src/lib/utils/masonry/index.ts:37-74 | An album with no photos keeps the hashed pattern and gets no overrides. It reports one row, all columns empty, and not perfect. |
| TouchGestures.Create | src/lib/utils/touchGestures.ts:26-33 | A new handler keeps its options and has no gesture in progress. |
| TouchGestures.DefaultOptions | src/lib/utils/touchGestures.ts:27-31 | The default threshold is 0.15 and the handler is enabled by default. |
| TouchGestures.TouchStart | src/lib/utils/touchGestures.ts:35-53 | Does nothing when disabled, without a callback or without touches. Otherwise it records the first touch's position and the time, and multi-touch iff more than one finger is down. |
| TouchGestures.TouchMove | src/lib/utils/touchGestures.ts:55-62 | Does nothing without a gesture or when disabled. More than one touch marks the gesture multi-touch. The start is never changed and the flag is never cleared. |
| TouchGestures.TouchEnd | src/lib/utils/touchGestures.ts:64-103 | A swipe is reported iff the gesture is single-touch, the end touch exists, and the horizontal distance exceeds the vertical one and the threshold within 1000 ms (all strict). The direction is right iff `deltaX > 0`, and `deltaX` is passed unchanged. Any handled end clears the gesture. |
| TouchGestures.TouchCancel | src/lib/utils/touchGestures.ts:105-119 | Cancel and reset always clear the gesture and keep the options. |
| TouchGestures.Final | src/lib/utils/touchGestures.ts:109-120 | Events never change a handler's options. |
| TouchGestures.StepReachable | src/lib/utils/touchGestures.ts:35-107 | Every event keeps the invariant that a gesture is only in progress on a listening handler. |
| TouchGestures.FinalReachable | src/lib/utils/touchGestures.ts:26-120 | The invariant holds after any sequence of events on a fresh handler. |
| TouchGestures.ReachableAfter | src/lib/utils/touchGestures.ts:35-107 | The invariant is kept by any sequence of events. |
| TouchGestures.EndClearsGesture | src/lib/utils/touchGestures.ts:68-102 | On a reachable handler, a touch-end that found a gesture leaves none. |
| TouchGestures.NoSwipeWithoutStart | src/lib/utils/touchGestures.spec.ts:227-237 | From a handler without a gesture, events without a touch-start report no swipe and leave no gesture. |
| TouchGestures.SilentWhenNotListening | src/lib/utils/touchGestures.ts:36-65 | A disabled handler, or one without a callback, never reports a swipe. |
| TouchGestures.SwipesBounded | src/lib/utils/touchGestures.ts:97-100 | A sequence of events reports at most one swipe per event. |
| TouchGestures.MovesKeepMultiTouch | src/lib/utils/touchGestures.ts:55-62 | No run of touch-moves clears the multi-touch flag. |
| TouchGestures.MultiTouchNeverSwipes | src/lib/utils/touchGestures.ts:67-71 | Once multi-touch, the gesture stays so under moves, and its end reports no swipe. |
| TouchGestures.SingleGestureSwipes | src/lib/utils/touchGestures.ts:64-103 | A one-finger start and end on a listening handler report exactly one swipe when the three tests pass, and none otherwise. |
| TouchGestures.RightSwipeExample | src/lib/utils/touchGestures.spec.ts:34-48 | 100 to 300 pixels on a 1000-pixel viewport with the default threshold reports a right swipe of 200. |
| PhotoClick.HandlePrimaryClick | src/lib/utils/photoClick.ts:17-26 | At most two effects. All of them concern the event itself, and a handler call carries the same arguments. |
| PhotoClick.HandlerCalledIffPrimary | src/lib/utils/photoClick.ts:20-24 | The handler is called iff the click is primary (button 0, neither Ctrl nor Meta), and at most once. |
| PhotoClick.PreventDefaultBeforeHandler | src/lib/utils/photoClick.ts:21-23 | The default is prevented iff the click is primary, and always before the handler is called. |
| PhotoClick.ShiftAndAltIgnored | src/lib/utils/photoClick.ts:6-8 | Shift and Alt do not change whether a click is primary. |
| PhotoClick.OtherClicksPassThrough | src/lib/utils/photoClick.ts:21 | Another button, or Ctrl or Meta held, produces no effect at all. |
| PhotoClick.DispatchCallsPrimaryOnly | src/lib/utils/photoClick.ts:17-26 | Over a stream of clicks the wrapper calls the handler exactly for the primary clicks, in order. |

## Left out

- The `touchGestures` Svelte action (`touchGestures.ts:126-147`) only registers DOM listeners and is not modelled.
- `masonry.ts` (an older three-pattern engine no caller uses) is not part of this model.
- `types.ts` has no behaviour. Its shapes appear as the datatypes `GridItem`, `SizeOverride`, `GridLayoutResult` and `MasonryLayoutConfig`.
- The pattern table, `hashString`/`getPatternIndex` and `findPerfectPattern` each exist twice in the source: `patterns.ts:27-148` and `simulation.ts:126-151` repeat `constants.ts`, `hash.ts` and `perfect.ts`. Each is modelled once. The two tables and the two hash functions are the same code, and the two searches differ only in the name of the simulation they call.
- `perfect.ts` imports `simulateGridLayoutExtended`, whose definition is not part of this model. It is taken to be `simulateGridLayout`.
- The photo count is a `nat`. Negative or fractional counts, which JavaScript would accept, are not modelled.
- The column count is an explicit argument that must be at least 1. The source's default of 2 is the constant `Masonry.DefaultColumns`, and zero or negative widths are not modelled.
- Determinism is not stated as a lemma: every operation is a pure function, so equal inputs give equal outputs by construction.
- `Date.now()` and `window.innerWidth` are parameters of the events that read them. Coordinates, times and the threshold are reals, not IEEE doubles.
- The `onSwipe` callback is modelled by whether it is present, plus the swipe list the handler reports. The handler passed to `handlePrimaryClick` is modelled by the effects list; it is never run.
- Only the mouse-event fields the wrapper reads are kept. `preventDefault` is recorded, not performed.
- Gaps.DetectGaps: its contract only bounds the flagged rows. The exact membership is pinned by `Gaps.ScanGaps`, the source's algorithm, which is proved equal to it.
- Fixups.JointPlan: the entries written in the (4 items, 2 empty) and (5 items, 1 empty) cases are defined as in the source. Only their case split and well-formedness are proved; `JointThreeWidens` and `JointFourOneWidens` state the entries of the other two cases.
- Simulation.ColSpanOf clamps the column span to the grid. It agrees with the source wherever the source's search terminates; see Findings.
- For a photo count of 0, `simulation.ts:98-103` reports one row, `emptySlots` equal to the column count and not perfect; `Masonry.EmptyAlbumLayout` states this.
- Hash.HashString: an identifier is a Dafny string, a sequence of Unicode scalar values, so a JavaScript string holding an unpaired surrogate code unit cannot be passed in. `Hash.HashAccumulator` itself works on any sequence of code units.

## Findings

| source | as written | input that shows it | evidently intended | confidence | as-written member | corrected member |
|---|---|---|---|---|---|---|
| src/lib/utils/masonry/simulation.ts:49-79 | The column span of a wide item is 2 even when the grid has one column. The `while (true)` search then tries no column in any row and never returns. | `simulateGridLayout(3, 0, 1)`: photo 2 is wide under pattern 0, so its span is 2 in a one-column grid. | Clamp the column span to the column count, so a wide item in one column is placed as a single column. | not executed | Simulation.OneColumnWideItemDiverges | Simulation.ClampedSearchFinds |
