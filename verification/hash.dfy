/**
 * The album-identifier hash that picks the starting pattern.
 *
 * JavaScript strings are sequences of UTF-16 code units and `charCodeAt`
 * returns one unit, so a Dafny string (a sequence of Unicode scalar values) is
 * first encoded to UTF-16. The accumulator follows the source's
 * `(hash << 5) - hash + char` followed by `hash & hash`: both steps reduce to
 * the 32-bit signed wrap of `31 * hash + char`.
 */
module Hash {
  import opened Wrappers
  import opened Arith
  import Patterns

  const Two31: int := 0x8000_0000
  const Two32: int := 0x1_0000_0000

  predicate IsInt32(x: int) {
    -Two31 <= x < Two31
  }

  /** ToInt32: the unique 32-bit signed value congruent to `x` modulo 2^32. */
  function Wrap32(x: int): (r: int)
    ensures IsInt32(r)
    ensures (r - x) % Two32 == 0
    ensures IsInt32(x) ==> r == x
  {
    var r := (x + Two31) % Two32 - Two31;
    DivUnique(x + Two31 - (r + Two31), Two32, (x + Two31) / Two32, 0);
    r
  }

  /** `Math.abs`. */
  function Abs(x: int): nat {
    if x < 0 then -x else x
  }

  /** The UTF-16 code units of one character: itself below 0x10000, else a surrogate pair. */
  function CodeUnitsOf(ch: char): (u: seq<int>)
    ensures 1 <= |u| <= 2
    ensures forall k :: 0 <= k < |u| ==> 0 <= u[k] < 0x10000
    ensures (ch as int) < 0x10000 <==> u == [ch as int]
  {
    var v := ch as int;
    if v < 0x10000 then [v]
    else [0xD800 + (v - 0x10000) / 0x400, 0xDC00 + (v - 0x10000) % 0x400]
  }

  /** The code-unit sequence `charCodeAt` walks over. */
  function Utf16(s: string): (u: seq<int>)
    ensures |u| >= |s|
  {
    if |s| == 0 then [] else Utf16(s[..|s| - 1]) + CodeUnitsOf(s[|s| - 1])
  }

  /** The signed 32-bit accumulator after all `units`. */
  function HashAccumulator(units: seq<int>): (h: int)
    ensures IsInt32(h)
  {
    if |units| == 0 then 0
    else Wrap32(31 * HashAccumulator(units[..|units| - 1]) + units[|units| - 1])
  }

  /** `hashString`: the absolute value of the accumulator, so 2^31 itself can occur. */
  function HashString(s: string): (h: nat)
    ensures h <= Two31
    ensures s == [] ==> h == 0
  {
    Abs(HashAccumulator(Utf16(s)))
  }

  /** `getPatternIndex`: 0 for an absent or empty identifier, else the hash modulo the pattern count. */
  function PatternIndexOf(albumIdentifier: Option<string>): (r: nat)
    ensures r < Patterns.PatternCount
    ensures albumIdentifier.None? || albumIdentifier == Some([]) ==> r == 0
    ensures albumIdentifier.Some? ==> r == HashString(albumIdentifier.value) % Patterns.PatternCount
  {
    match albumIdentifier
    case None => 0
    case Some(id) => if id == [] then 0 else HashString(id) % Patterns.PatternCount
  }

  /** Each code unit moves the accumulator to the 32-bit wrap of `31 * h + unit`. */
  lemma HashStep(units: seq<int>, unit: int)
    ensures HashAccumulator(units + [unit]) == Wrap32(31 * HashAccumulator(units) + unit)
  {
    assert (units + [unit])[..|units|] == units;
  }

  /** The source's loop, one `charCodeAt` per iteration. */
  method HashStringLoop(s: string) returns (h: nat)
    ensures h == HashString(s)
    ensures h <= Two31
  {
    var units := Utf16(s);
    var acc := 0;
    var i := 0;
    while i < |units|
      invariant 0 <= i <= |units|
      invariant acc == HashAccumulator(units[..i])
    {
      HashStep(units[..i], units[i]);
      assert units[..i] + [units[i]] == units[..i + 1];
      acc := Wrap32(31 * acc + units[i]);
      i := i + 1;
    }
    assert units[..i] == units;
    h := Abs(acc);
  }

  /** Appending a character appends its code units. */
  lemma Utf16Snoc(s: string, c: char)
    ensures Utf16(s + [c]) == Utf16(s) + CodeUnitsOf(c)
  {
    assert (s + [c])[..|s|] == s;
  }

  /** `Wrap32(x)` written as `x` minus a multiple of 2^32. */
  lemma WrapOffset(x: int) returns (q: int)
    ensures Wrap32(x) == x - q * Two32
  {
    q := (x + Two31) / Two32;
    assert (x + Two31) == q * Two32 + (x + Two31) % Two32;
  }

  /**
   * Two strings that share everything but a last code unit, with units of odd
   * difference, hash differently: the wrapped accumulators differ, and they
   * cannot be opposite because their sum is odd.
   */
  lemma {:induction false} OddLastUnitsHashApart(units: seq<int>, a: int, b: int)
    requires 0 <= a < 0x10000 && 0 <= b < 0x10000
    requires (a - b) % 2 == 1
    ensures Abs(HashAccumulator(units + [a])) != Abs(HashAccumulator(units + [b]))
  {
    HashStep(units, a);
    HashStep(units, b);
    var h := HashAccumulator(units);
    var x, y := Wrap32(31 * h + a), Wrap32(31 * h + b);
    var qa := WrapOffset(31 * h + a);
    var qb := WrapOffset(31 * h + b);
    if x == y {
      assert (qb - qa) * Two32 == b - a;
      MulZero(qb - qa, Two32);
    } else if x == -y {
      assert a + b == (qa + qb) * Two32 - 62 * h;
      OddSumNotEven(a, b, (qa + qb) * 0x8000_0000 - 31 * h);
    }
  }

  /** Two numbers of odd difference have an odd sum. */
  lemma OddSumNotEven(a: int, b: int, k: int)
    requires (a - b) % 2 == 1
    ensures a + b != 2 * k
  {
    assert a + b == (a - b) + 2 * b;
    assert (a + b) % 2 == 1;
  }

  /** The two identifiers the tests compare hash apart. */
  lemma AlbumHashesDiffer()
    ensures HashString("album-1") != HashString("album-2")
  {
    Utf16Snoc("album-", '1');
    Utf16Snoc("album-", '2');
    assert "album-" + ['1'] == "album-1";
    assert "album-" + ['2'] == "album-2";
    OddLastUnitsHashApart(Utf16("album-"), '2' as int, '1' as int);
  }
}
