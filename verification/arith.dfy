/** Facts about Euclidean division used by the modulo rules and the 32-bit hash. */
module Arith {

  lemma MulZero(d: int, m: int)
    requires m > 0 && -m < d * m < m
    ensures d == 0
  {
  }

  /** Division is unique: any quotient/remainder pair with a proper remainder is Dafny's. */
  lemma DivUnique(a: int, m: int, q: int, r: int)
    requires m > 0 && a == q * m + r && 0 <= r < m
    ensures a / m == q && a % m == r
  {
    var q', r' := a / m, a % m;
    assert (q - q') * m == r' - r;
    MulZero(q - q', m);
  }
}
