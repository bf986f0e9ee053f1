/**
 * `getMasonryLayout`, the orchestrator: hash the album identifier to a
 * starting pattern, search for a truly perfect pattern from there, compute
 * the fixups for the chosen pattern and report the statistics of the layout
 * that will actually be rendered.
 */
module Masonry {
  import opened Wrappers
  import opened Patterns
  import opened Hash
  import opened Simulation
  import opened Gaps
  import opened Perfect
  import opened Fixups

  /** The grid width used when the caller gives none. */
  const DefaultColumns: nat := 2

  datatype MasonryLayoutConfig = MasonryLayoutConfig(
    patternIndex: int,
    overrides: Overrides,
    isPerfect: bool,
    totalRows: nat,
    emptySlots: int,
    triedPatterns: seq<int>)

  /** The patterns in the order the search tries them: `(initial + i) % 10` for `i` in `0 .. 9`. */
  function TriedPatterns(initial: nat): (t: seq<int>)
    ensures |t| == PatternCount
    ensures forall i :: 0 <= i < PatternCount ==> t[i] == Candidate(initial, i)
  {
    seq(PatternCount, i requires 0 <= i < PatternCount => (initial + i) % PatternCount)
  }

  /**
   * The statistics come from the layout with the chosen pattern and its
   * fixups; the re-simulation is skipped only when there are no fixups.
   */
  function FinalLayout(count: nat, patternIndex: int, numColumns: nat, overrides: Overrides): (res: GridLayoutResult)
    requires numColumns >= 1
    ensures res == Simulate(count, patternIndex, numColumns, overrides)
  {
    if |overrides| > 0 then Simulate(count, patternIndex, numColumns, overrides)
    else
      assert overrides == map[];
      Simulate(count, patternIndex, numColumns, map[])
  }

  /** `getMasonryLayout(albumId, photoCount, numColumns)`. */
  function GetMasonryLayout(albumId: string, count: nat, numColumns: nat): (c: MasonryLayoutConfig)
    requires numColumns >= 1
    ensures 0 <= c.patternIndex < PatternCount
    ensures c.patternIndex == FindPerfectPattern(count, PatternIndexOf(Some(albumId)), numColumns)
    ensures c.overrides == CreateComprehensiveFixups(count, c.patternIndex, numColumns)
    ensures WellFormed(c.overrides, count, numColumns)
    ensures c.isPerfect <==> c.emptySlots == 0
    ensures 0 <= c.emptySlots <= numColumns
    ensures c.totalRows >= 1
    ensures |c.triedPatterns| == PatternCount
    ensures forall i :: 0 <= i < PatternCount ==>
      c.triedPatterns[i] == Candidate(PatternIndexOf(Some(albumId)), i)
    ensures var res := Simulate(count, c.patternIndex, numColumns, c.overrides);
      c.isPerfect == res.isPerfect && c.totalRows == res.totalRows && c.emptySlots == res.emptySlots
  {
    var initial := PatternIndexOf(Some(albumId));
    var chosen := FindPerfectPattern(count, initial, numColumns);
    var overrides := CreateComprehensiveFixups(count, chosen, numColumns);
    var layout := FinalLayout(count, chosen, numColumns, overrides);
    MasonryLayoutConfig(chosen, overrides, layout.isPerfect, layout.totalRows, layout.emptySlots, TriedPatterns(initial))
  }

  /** Every pattern is tried exactly once. */
  lemma TriedPatternsArePermutation(initial: nat)
    requires initial < PatternCount
    ensures forall p :: 0 <= p < PatternCount ==> p in TriedPatterns(initial)
    ensures forall i, j :: 0 <= i < j < PatternCount ==> TriedPatterns(initial)[i] != TriedPatterns(initial)[j]
  {
    var t := TriedPatterns(initial);
    forall p | 0 <= p < PatternCount
      ensures p in t
    {
      CandidatesCoverAll(initial, p);
      var k: nat :| k < PatternCount && Candidate(initial, k) == p;
      assert t[k] == p;
    }
    forall i, j | 0 <= i < j < PatternCount
      ensures t[i] != t[j]
    {
      TriedApart(initial, i, j);
    }
  }

  /** Two steps fewer than ten apart land on different patterns. */
  lemma TriedApart(initial: nat, i: nat, j: nat)
    requires i < j < PatternCount
    ensures (initial + i) % PatternCount != (initial + j) % PatternCount
  {
    var qi, qj := (initial + i) / PatternCount, (initial + j) / PatternCount;
    assert j - i == (qj - qi) * PatternCount + ((initial + j) % PatternCount - (initial + i) % PatternCount);
  }

  /**
   * When some pattern tiles truly perfectly without overrides, the layout
   * uses one: its un-overridden grid is perfect and has every row full.
   */
  lemma PerfectPatternChosenWhenAvailable(albumId: string, count: nat, numColumns: nat, p: int)
    requires numColumns >= 1
    requires 0 <= p < PatternCount && PerfectAt(count, p, numColumns)
    ensures var c := GetMasonryLayout(albumId, count, numColumns);
      var res := Simulate(count, c.patternIndex, numColumns, map[]);
      PerfectAt(count, c.patternIndex, numColumns) &&
      forall row: nat :: row < res.totalRows ==> RowFull(res.allItems, row, numColumns)
  {
    PerfectFoundIfAny(count, PatternIndexOf(Some(albumId)), numColumns, p);
  }

  /**
   * When no pattern tiles truly perfectly without overrides, the layout keeps
   * the pattern the album identifier hashes to.
   */
  lemma HashedStartKeptWhenNonePerfect(albumId: string, count: nat, numColumns: nat)
    requires numColumns >= 1
    requires forall p :: 0 <= p < PatternCount ==> !PerfectAt(count, p, numColumns)
    ensures GetMasonryLayout(albumId, count, numColumns).patternIndex == PatternIndexOf(Some(albumId))
  {
    NonePerfectKeepsStart(count, PatternIndexOf(Some(albumId)), numColumns);
  }

  /**
   * An empty album keeps the hashed pattern, gets no overrides and reports
   * one empty row.
   */
  lemma EmptyAlbumLayout(albumId: string, numColumns: nat)
    requires numColumns >= 1
    ensures var c := GetMasonryLayout(albumId, 0, numColumns);
      c.patternIndex == PatternIndexOf(Some(albumId)) && c.overrides == map[] &&
      c.totalRows == 1 && c.emptySlots == numColumns && !c.isPerfect
  {
    forall p: int
      ensures !PerfectAt(0, p, numColumns)
    {
      TrulyPerfectIsPerfect(0, p, numColumns, map[]);
    }
    NonePerfectKeepsStart(0, PatternIndexOf(Some(albumId)), numColumns);
  }
}
