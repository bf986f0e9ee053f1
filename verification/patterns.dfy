/**
 * The pattern table and the per-index classifier of the masonry engine.
 *
 * A pattern is two lists of modulo rules; an index is tall when it matches any
 * tall rule and wide when it matches any wide rule. Per-index overrides, produced
 * by the fixup passes, win field by field over the pattern.
 */
module Patterns {
  import opened Wrappers
  import opened Arith

  /** Matches every index `i` with `i % modulus == offset`. */
  datatype Rule = Rule(modulus: nat, offset: nat)

  datatype Pattern = Pattern(tall: seq<Rule>, wide: seq<Rule>)

  /** Explicit per-index classification; `None` fields fall back to the pattern. */
  datatype SizeOverride = SizeOverride(tall: Option<bool>, wide: Option<bool>, fullWidth: Option<bool>)

  type Overrides = map<nat, SizeOverride>

  const PatternCount: nat := 10

  /** The moduli the table draws from. */
  const Primes: set<nat> := {11, 13, 17, 19, 23, 29, 31, 37}

  /** The ten curated patterns, in table order. */
  const MasonryPatterns: seq<Pattern> := [
    Pattern([Rule(13, 4), Rule(19, 10)], [Rule(17, 2), Rule(23, 6)]),
    Pattern([Rule(11, 3), Rule(17, 8)], [Rule(13, 5), Rule(19, 12)]),
    Pattern([Rule(23, 7), Rule(29, 14)], [Rule(11, 6), Rule(13, 9)]),
    Pattern([Rule(17, 5), Rule(23, 11)], [Rule(19, 7), Rule(29, 15)]),
    Pattern([Rule(11, 2), Rule(31, 18)], [Rule(13, 7), Rule(23, 14)]),
    Pattern([Rule(19, 6), Rule(31, 22)], [Rule(17, 9), Rule(29, 19)]),
    Pattern([Rule(13, 8), Rule(29, 12)], [Rule(11, 4), Rule(31, 20)]),
    Pattern([Rule(23, 3), Rule(37, 25)], [Rule(13, 6), Rule(17, 11)]),
    Pattern([Rule(11, 7), Rule(19, 15)], [Rule(23, 9), Rule(31, 16)]),
    Pattern([Rule(17, 12), Rule(29, 21)], [Rule(19, 8), Rule(37, 28)])
  ]

  /** A rule whose offset is a proper remainder of a prime modulus from the table's set. */
  predicate WellFormedRule(r: Rule) {
    r.modulus in Primes && r.offset < r.modulus
  }

  predicate WellFormedPattern(p: Pattern) {
    |p.tall| == 2 && |p.wide| == 2 &&
    (forall k :: 0 <= k < 2 ==> WellFormedRule(p.tall[k]) && WellFormedRule(p.wide[k]))
  }

  /** `index % modulus === offset`; a zero modulus yields NaN in the source, which matches nothing. */
  predicate Matches(index: nat, r: Rule) {
    r.modulus > 0 && index % r.modulus == r.offset
  }

  /** The source's `rules.some(...)`. */
  predicate AnyMatches(index: nat, rules: seq<Rule>) {
    exists k :: 0 <= k < |rules| && Matches(index, rules[k])
  }

  /** The pattern at `patternIndex`, or `None` where the table lookup is undefined. */
  function PatternAt(patternIndex: int): (r: Option<Pattern>)
    ensures r.Some? <==> 0 <= patternIndex < PatternCount
    ensures r.Some? ==> r.value == MasonryPatterns[patternIndex]
  {
    if 0 <= patternIndex < |MasonryPatterns| then Some(MasonryPatterns[patternIndex]) else None
  }

  function OverrideOf(index: nat, overrides: Overrides): Option<SizeOverride> {
    if index in overrides then Some(overrides[index]) else None
  }

  /** The override's `tall` field when one is defined. */
  function TallOverride(index: nat, overrides: Overrides): Option<bool> {
    match OverrideOf(index, overrides)
    case Some(o) => o.tall
    case None => None
  }

  function WideOverride(index: nat, overrides: Overrides): Option<bool> {
    match OverrideOf(index, overrides)
    case Some(o) => o.wide
    case None => None
  }

  /** Whether the pattern alone makes `index` tall; false for an undefined pattern. */
  predicate PatternTall(index: nat, patternIndex: int) {
    match PatternAt(patternIndex)
    case Some(p) => AnyMatches(index, p.tall)
    case None => false
  }

  predicate PatternWide(index: nat, patternIndex: int) {
    match PatternAt(patternIndex)
    case Some(p) => AnyMatches(index, p.wide)
    case None => false
  }

  /** `isTallItem`: the override's `tall` when defined, else the pattern's tall rules. */
  predicate IsTall(index: nat, patternIndex: int, overrides: Overrides) {
    TallOverride(index, overrides).GetOr(PatternTall(index, patternIndex))
  }

  /** `isWideItem`: the override's `wide` when defined, else the pattern's wide rules. */
  predicate IsWide(index: nat, patternIndex: int, overrides: Overrides) {
    WideOverride(index, overrides).GetOr(PatternWide(index, patternIndex))
  }

  /** `isBigItem`. */
  predicate IsBig(index: nat, patternIndex: int, overrides: Overrides) {
    IsTall(index, patternIndex, overrides) && IsWide(index, patternIndex, overrides)
  }

  /** `isFullWidthItem`: only an override can make an item span the full width. */
  predicate IsFullWidth(index: nat, overrides: Overrides) {
    match OverrideOf(index, overrides)
    case Some(o) => o.fullWidth.GetOr(false)
    case None => false
  }

  // ---------------------------------------------------------------------------
  // The table
  // ---------------------------------------------------------------------------

  /** Ten patterns, each with two tall and two wide rules, every rule a prime modulus with a proper offset. */
  lemma TableShape()
    ensures |MasonryPatterns| == PatternCount
    ensures forall p :: 0 <= p < PatternCount ==> WellFormedPattern(MasonryPatterns[p])
  {
  }

  /** The smallest offset among `rules`. */
  function MinOffset(rules: seq<Rule>): (m: nat)
    requires |rules| > 0
    ensures exists k :: 0 <= k < |rules| && rules[k].offset == m
    ensures forall k :: 0 <= k < |rules| ==> m <= rules[k].offset
  {
    if |rules| == 1 then rules[0].offset
    else
      var rest := MinOffset(rules[1..]);
      assert forall k :: 1 <= k < |rules| ==> rules[k] == rules[1..][k - 1];
      if rules[0].offset <= rest then rules[0].offset else rest
  }

  /** Remainder of a number already below the modulus. */
  lemma SmallRemainder(i: nat, m: nat)
    requires i < m
    ensures i % m == i
  {
  }

  /**
   * For proper rules the first matching index is the smallest offset: nothing
   * below it matches, and it matches itself.
   */
  lemma {:induction false} FirstMatchIsMinOffset(rules: seq<Rule>)
    requires |rules| > 0
    requires forall k :: 0 <= k < |rules| ==> rules[k].offset < rules[k].modulus
    ensures AnyMatches(MinOffset(rules), rules)
    ensures forall i: nat :: i < MinOffset(rules) ==> !AnyMatches(i, rules)
  {
    var m := MinOffset(rules);
    var k :| 0 <= k < |rules| && rules[k].offset == m;
    SmallRemainder(m, rules[k].modulus);
    assert Matches(m, rules[k]);
    forall i: nat | i < m
      ensures !AnyMatches(i, rules)
    {
      forall j | 0 <= j < |rules|
        ensures !Matches(i, rules[j])
      {
        SmallRemainder(i, rules[j].modulus);
      }
    }
  }

  /** A rule with `offset < modulus` matches exactly the progression `offset + t * modulus`. */
  lemma RuleProgression(r: Rule, index: nat)
    requires r.offset < r.modulus
    ensures Matches(index, r) <==> exists t: nat :: index == r.offset + t * r.modulus
  {
    if Matches(index, r) {
      var t := index / r.modulus;
      assert index == t * r.modulus + index % r.modulus;
    }
    if exists t: nat :: index == r.offset + t * r.modulus {
      var t: nat :| index == r.offset + t * r.modulus;
      ProgressionRemainder(r.offset, t, r.modulus);
    }
  }

  lemma ProgressionRemainder(offset: nat, t: nat, m: nat)
    requires offset < m
    ensures (offset + t * m) % m == offset
  {
    DivUnique(offset + t * m, m, t, offset);
  }

  /** Every proper rule matches some index at or beyond any bound: rules fire infinitely often. */
  lemma RuleRecurs(r: Rule, bound: nat)
    requires r.offset < r.modulus
    ensures Matches(bound * r.modulus + r.offset, r)
    ensures bound * r.modulus + r.offset >= bound
  {
    ProgressionRemainder(r.offset, bound, r.modulus);
    assert bound * r.modulus == bound + bound * (r.modulus - 1);
  }

  /** First tall index and first wide index of a pattern: a signature that tells the ten apart. */
  function Signature(patternIndex: nat): (nat, nat)
    requires patternIndex < PatternCount
  {
    (MinOffset(MasonryPatterns[patternIndex].tall), MinOffset(MasonryPatterns[patternIndex].wide))
  }

  /** The signatures of the ten patterns, in table order. */
  const SignatureTable: seq<(nat, nat)> := [(4, 2), (3, 5), (7, 6), (5, 7), (2, 7), (6, 9), (8, 4), (3, 6), (7, 9), (12, 8)]

  lemma SignatureOf(q: nat)
    requires q < PatternCount
    ensures Signature(q) == SignatureTable[q]
  {
    if q < 5 {
      assert q == 0 || q == 1 || q == 2 || q == 3 || q == 4;
    } else {
      assert q == 5 || q == 6 || q == 7 || q == 8 || q == 9;
    }
  }

  /** Which table pattern a signature belongs to; the left inverse of `SignatureTable`. */
  function PatternOfSignature(sig: (nat, nat)): nat {
    match sig
    case (4, 2) => 0
    case (3, 5) => 1
    case (7, 6) => 2
    case (5, 7) => 3
    case (2, 7) => 4
    case (6, 9) => 5
    case (8, 4) => 6
    case (3, 6) => 7
    case (7, 9) => 8
    case _ => 9
  }

  lemma SignatureTableInjective(q: nat)
    requires q < PatternCount
    ensures PatternOfSignature(SignatureTable[q]) == q
  {
    if q < 5 {
      assert q == 0 || q == 1 || q == 2 || q == 3 || q == 4;
    } else {
      assert q == 5 || q == 6 || q == 7 || q == 8 || q == 9;
    }
  }

  lemma SignaturesDistinct(i: nat, j: nat)
    requires i < PatternCount && j < PatternCount && i != j
    ensures Signature(i).0 != Signature(j).0 || Signature(i).1 != Signature(j).1
  {
    SignatureOf(i);
    SignatureOf(j);
    SignatureTableInjective(i);
    SignatureTableInjective(j);
  }

  /** The first tall and first wide index of a table pattern, and that nothing earlier is tall or wide. */
  lemma FirstSpecialIndices(q: nat)
    requires q < PatternCount
    ensures IsTall(Signature(q).0, q, map[]) && IsWide(Signature(q).1, q, map[])
    ensures forall k: nat :: k < Signature(q).0 ==> !IsTall(k, q, map[])
    ensures forall k: nat :: k < Signature(q).1 ==> !IsWide(k, q, map[])
  {
    TableShape();
    var p := MasonryPatterns[q];
    assert WellFormedPattern(p);
    FirstMatchIsMinOffset(p.tall);
    FirstMatchIsMinOffset(p.wide);
  }

  /** No two patterns agree on tallness and wideness for every index below 100. */
  lemma PatternsDistinct(i: nat, j: nat)
    requires i < PatternCount && j < PatternCount && i != j
    ensures exists k: nat :: (k < 100 &&
      (IsTall(k, i, map[]) != IsTall(k, j, map[]) || IsWide(k, i, map[]) != IsWide(k, j, map[])))
  {
    SignaturesDistinct(i, j);
    SignatureSmall(i);
    SignatureSmall(j);
    var (ti, wi) := Signature(i);
    var (tj, wj) := Signature(j);
    if ti < tj {
      EarlierSpecialDiffers(i, j);
      assert IsTall(ti, i, map[]) != IsTall(ti, j, map[]);
    } else if tj < ti {
      EarlierSpecialDiffers(j, i);
      assert IsTall(tj, i, map[]) != IsTall(tj, j, map[]);
    } else if wi < wj {
      EarlierSpecialDiffers(i, j);
      assert IsWide(wi, i, map[]) != IsWide(wi, j, map[]);
    } else {
      assert wj < wi;
      EarlierSpecialDiffers(j, i);
      assert IsWide(wj, i, map[]) != IsWide(wj, j, map[]);
    }
  }

  /** Both signature indices lie below 100. */
  lemma SignatureSmall(q: nat)
    requires q < PatternCount
    ensures Signature(q).0 < 100 && Signature(q).1 < 100
  {
    TableShape();
    assert WellFormedPattern(MasonryPatterns[q]);
  }

  /** A pattern's first tall (wide) index is not tall (wide) in a pattern whose first one comes later. */
  lemma EarlierSpecialDiffers(i: nat, j: nat)
    requires i < PatternCount && j < PatternCount
    ensures Signature(i).0 < Signature(j).0 ==> IsTall(Signature(i).0, i, map[]) && !IsTall(Signature(i).0, j, map[])
    ensures Signature(i).1 < Signature(j).1 ==> IsWide(Signature(i).1, i, map[]) && !IsWide(Signature(i).1, j, map[])
  {
    FirstSpecialIndices(i);
    FirstSpecialIndices(j);
  }

  // ---------------------------------------------------------------------------
  // The classifier
  // ---------------------------------------------------------------------------

  /** A defined `tall` override is returned as is; otherwise tall iff some tall rule of the pattern matches. */
  lemma TallPrecedence(index: nat, patternIndex: int, overrides: Overrides)
    ensures index in overrides && overrides[index].tall.Some? ==>
      IsTall(index, patternIndex, overrides) == overrides[index].tall.value
    ensures !(index in overrides && overrides[index].tall.Some?) ==>
      (IsTall(index, patternIndex, overrides) <==>
        0 <= patternIndex < PatternCount &&
        exists k :: 0 <= k < 2 && index % MasonryPatterns[patternIndex].tall[k].modulus == MasonryPatterns[patternIndex].tall[k].offset)
  {
    TableShape();
  }

  /** The mirror image of `TallPrecedence` for wide rules and the `wide` override. */
  lemma WidePrecedence(index: nat, patternIndex: int, overrides: Overrides)
    ensures index in overrides && overrides[index].wide.Some? ==>
      IsWide(index, patternIndex, overrides) == overrides[index].wide.value
    ensures !(index in overrides && overrides[index].wide.Some?) ==>
      (IsWide(index, patternIndex, overrides) <==>
        0 <= patternIndex < PatternCount &&
        exists k :: 0 <= k < 2 && index % MasonryPatterns[patternIndex].wide[k].modulus == MasonryPatterns[patternIndex].wide[k].offset)
  {
    TableShape();
  }

  /** An undefined pattern never makes an item tall or wide on its own. */
  lemma OutOfRangePattern(index: nat, patternIndex: int)
    requires !(0 <= patternIndex < PatternCount)
    ensures !IsTall(index, patternIndex, map[]) && !IsWide(index, patternIndex, map[])
  {
  }

  /** Full width is never derived from a pattern: it needs an override whose `fullWidth` is true. */
  lemma FullWidthOnlyByOverride(index: nat, overrides: Overrides)
    ensures IsFullWidth(index, overrides) <==>
      index in overrides && overrides[index].fullWidth == Some(true)
  {
  }

  /** The worked examples for pattern 0. */
  lemma Pattern0Examples()
    ensures IsTall(4, 0, map[]) && IsTall(17, 0, map[]) && IsTall(10, 0, map[]) && IsTall(29, 0, map[])
    ensures IsWide(2, 0, map[]) && IsWide(19, 0, map[]) && IsWide(6, 0, map[]) && IsWide(29, 0, map[])
    ensures IsBig(29, 0, map[]) && !IsBig(4, 0, map[]) && !IsBig(2, 0, map[])
    ensures !IsTall(0, 0, map[]) && !IsTall(1, 0, map[]) && !IsTall(2, 0, map[])
  {
    var p := MasonryPatterns[0];
    assert Matches(4, p.tall[0]) && Matches(17, p.tall[0]);
    assert Matches(10, p.tall[1]) && Matches(29, p.tall[1]);
    assert Matches(2, p.wide[0]) && Matches(19, p.wide[0]);
    assert Matches(6, p.wide[1]) && Matches(29, p.wide[1]);
  }
}
