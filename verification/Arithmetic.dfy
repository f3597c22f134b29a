/** Shared arithmetic: division with remainder, powers of two, absolute values, sizes of sets. */
module Arithmetic {

  function Pow2(k: nat): (p: int)
    ensures p > 0
  {
    if k == 0 then 1 else 2 * Pow2(k - 1)
  }

  function Abs(r: real): real {
    if r < 0.0 then -r else r
  }

  lemma SubsetSize<T>(a: set<T>, b: set<T>)
    requires a <= b
    ensures |a| <= |b|
  {
    assert b == a + (b - a);
  }

  lemma SmallMultiple(k: int, m: int, r: int)
    requires 0 <= r < m
    ensures k * m == r ==> r == 0
  {
  }

  lemma UniqueRemainder(x: int, m: int, q: int, r: int)
    requires 0 <= r < m && x == q * m + r
    ensures x % m == r && x / m == q
  {
    var q', r' := x / m, x % m;
    assert x == q' * m + r';
    if r <= r' {
      assert (q - q') * m == r' - r;
      SmallMultiple(q - q', m, r' - r);
    } else {
      assert (q' - q) * m == r - r';
      SmallMultiple(q' - q, m, r - r');
    }
    assert (q - q') * m == 0;
  }
}
