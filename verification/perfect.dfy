/**
 * `findPerfectPattern`: starting from the hashed pattern, try the ten
 * patterns in cyclic order and keep the first whose un-overridden layout is
 * truly perfect; fall back to the starting index when none is.
 *
 * `FindPerfectPattern` is the declarative search; `FindPerfectPatternLoop`
 * is the source's `for` loop (present twice in the source, once in
 * perfect.ts and once in simulation.ts) and is proved to agree with it.
 */
module Perfect {
  import opened Wrappers
  import opened Patterns
  import opened Simulation
  import opened Gaps

  /**
   * JavaScript's `%`: the remainder truncates toward zero, so it takes the
   * sign of the dividend (Dafny's `%` is Euclidean and never negative).
   */
  function JsRem(a: int, m: nat): (r: int)
    requires m > 0
    ensures a >= 0 ==> 0 <= r < m
    ensures a < 0 ==> -(m as int) < r <= 0
    ensures exists q: int :: a == q * m + r
  {
    if a >= 0 then
      assert a == (a / m) * m + a % m;
      a % m
    else
      var q := (-a) / m;
      assert -a == q * m + (-a) % m;
      assert a == (-q) * m + -((-a) % m);
      -((-a) % m)
  }

  /** The pattern tried at step `offset` of the search: `(start + offset) % 10`. */
  function Candidate(start: int, offset: nat): (idx: int)
    ensures 0 <= start ==> 0 <= idx < PatternCount
    ensures 0 <= start ==> idx == (start + offset) % PatternCount
  {
    JsRem(start + offset, PatternCount)
  }

  /** Pattern `idx`, simulated without overrides, is truly perfect. */
  predicate PerfectAt(count: nat, idx: int, numColumns: nat)
    requires numColumns >= 1
  {
    LayoutTrulyPerfect(Simulate(count, idx, numColumns, map[]), numColumns)
  }

  /** Step `k` is the first step at or after `from` whose candidate is truly perfect. */
  predicate FirstPerfectStep(count: nat, start: int, numColumns: nat, from: nat, k: nat)
    requires numColumns >= 1
  {
    from <= k < PatternCount &&
    PerfectAt(count, Candidate(start, k), numColumns) &&
    forall j: nat :: from <= j < k ==> !PerfectAt(count, Candidate(start, j), numColumns)
  }

  /** No step from `from` on finds a truly perfect candidate. */
  predicate NonePerfectFrom(count: nat, start: int, numColumns: nat, from: nat)
    requires numColumns >= 1
  {
    forall k: nat :: from <= k < PatternCount ==> !PerfectAt(count, Candidate(start, k), numColumns)
  }

  /** Which of the ten steps would succeed, in the order they are tried. */
  function Trials(count: nat, start: int, numColumns: nat): (t: seq<bool>)
    requires numColumns >= 1
    ensures |t| == PatternCount
    ensures forall k :: 0 <= k < PatternCount ==> t[k] == PerfectAt(count, Candidate(start, k), numColumns)
  {
    seq(PatternCount, k requires 0 <= k < PatternCount => PerfectAt(count, Candidate(start, k), numColumns))
  }

  /** The first `true` at or after position `from`. */
  function FirstTrue(t: seq<bool>, from: nat): (r: Option<nat>)
    requires from <= |t|
    decreases |t| - from
    ensures r.None? <==> forall k :: from <= k < |t| ==> !t[k]
    ensures r.Some? ==> from <= r.value < |t| && t[r.value] && forall j :: from <= j < r.value ==> !t[j]
  {
    if from == |t| then None
    else if t[from] then Some(from)
    else FirstTrue(t, from + 1)
  }

  /**
   * `findPerfectPattern`: the first truly perfect candidate in cyclic order,
   * or `start` when there is none.
   */
  function FindPerfectPattern(count: nat, start: int, numColumns: nat): (r: int)
    requires numColumns >= 1
    ensures (exists k: nat :: FirstPerfectStep(count, start, numColumns, 0, k) && r == Candidate(start, k)) ||
      (NonePerfectFrom(count, start, numColumns, 0) && r == start)
    ensures 0 <= start < PatternCount ==> 0 <= r < PatternCount
  {
    match FirstTrue(Trials(count, start, numColumns), 0)
    case Some(k) =>
      FirstTrialIsFirstStep(count, start, numColumns);
      Candidate(start, k)
    case None =>
      FirstTrialIsFirstStep(count, start, numColumns);
      start
  }

  /** The first successful trial is the first step whose candidate is truly perfect. */
  lemma FirstTrialIsFirstStep(count: nat, start: int, numColumns: nat)
    requires numColumns >= 1
    ensures var first := FirstTrue(Trials(count, start, numColumns), 0);
      (first.Some? ==> FirstPerfectStep(count, start, numColumns, 0, first.value)) &&
      (first.None? ==> NonePerfectFrom(count, start, numColumns, 0))
  {
  }

  /** The source's loop computes the declarative search. */
  method FindPerfectPatternLoop(count: nat, start: int, numColumns: nat) returns (r: int)
    requires numColumns >= 1
    ensures r == FindPerfectPattern(count, start, numColumns)
  {
    ghost var t := Trials(count, start, numColumns);
    var offset := 0;
    while offset < PatternCount
      invariant offset <= PatternCount
      invariant FirstTrue(t, 0) == FirstTrue(t, offset)
    {
      var idx := Candidate(start, offset);
      var layout := Simulate(count, idx, numColumns, map[]);
      var perfect := IsTrulyPerfect(layout.allItems, layout.totalRows, layout.lastRowItems, numColumns, layout.emptySlots);
      assert perfect == t[offset];
      if perfect {
        return idx;
      }
      offset := offset + 1;
    }
    return start;
  }

  /** From a starting index in range, the ten steps visit every pattern. */
  lemma CandidatesCoverAll(start: int, p: int)
    requires 0 <= start < PatternCount && 0 <= p < PatternCount
    ensures exists k: nat :: k < PatternCount && Candidate(start, k) == p
  {
    var k: nat := (p - start + PatternCount) % PatternCount;
    Arith.DivUnique(start + k, PatternCount, if start + k < PatternCount then 0 else 1, p);
    assert Candidate(start, k) == p;
  }

  /**
   * If any pattern is truly perfect, the search returns a truly perfect one:
   * its layout is perfect and every row of its grid is full.
   */
  lemma PerfectFoundIfAny(count: nat, start: int, numColumns: nat, p: int)
    requires numColumns >= 1
    requires 0 <= start < PatternCount && 0 <= p < PatternCount
    requires PerfectAt(count, p, numColumns)
    ensures var r := FindPerfectPattern(count, start, numColumns);
      var res := Simulate(count, r, numColumns, map[]);
      PerfectAt(count, r, numColumns) && res.isPerfect &&
      forall row: nat :: row < res.totalRows ==> RowFull(res.allItems, row, numColumns)
  {
    CandidatesCoverAll(start, p);
    var k: nat :| k < PatternCount && Candidate(start, k) == p;
    assert !NonePerfectFrom(count, start, numColumns, 0);
    var r := FindPerfectPattern(count, start, numColumns);
    TrulyPerfectFillsGrid(count, r, numColumns, map[]);
  }

  /** When nothing is truly perfect the search hands back its starting index. */
  lemma NonePerfectKeepsStart(count: nat, start: int, numColumns: nat)
    requires numColumns >= 1
    requires 0 <= start < PatternCount
    requires forall p :: 0 <= p < PatternCount ==> !PerfectAt(count, p, numColumns)
    ensures FindPerfectPattern(count, start, numColumns) == start
  {
    forall k: nat | k < PatternCount
      ensures !PerfectAt(count, Candidate(start, k), numColumns)
    {
      assert 0 <= Candidate(start, k) < PatternCount;
    }
    assert NonePerfectFrom(count, start, numColumns, 0);
  }
}
