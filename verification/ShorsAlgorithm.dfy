/**
  Factoring by trial division (ShorsAlgorithm::factorize in crates/quantum/src/algorithms.rs),
  with an exact square root.
 */
module ShorsAlgorithm {
  import opened Wrappers
  import Arithmetic

  ghost predicate Prime(n: nat) {
    n >= 2 && forall d :: 2 <= d < n ==> n % d != 0
  }

  // Nothing from 2 up to k divides n.
  ghost predicate NoFactorBelow(n: nat, k: nat) {
    forall d :: 2 <= d < k ==> n % d != 0
  }

  ghost predicate LeastFactor(p: nat, n: nat) {
    p >= 2 && n % p == 0 && NoFactorBelow(n, p)
  }

  function FloorSqrt(n: nat): (r: nat)
    ensures r * r <= n < (r + 1) * (r + 1)
  {
    if n == 0 then 0
    else
      var r := FloorSqrt(n - 1);
      if (r + 1) * (r + 1) <= n then r + 1 else r
  }

  lemma Cofactor(n: nat, d: nat) returns (e: nat)
    requires d > 0 && n % d == 0
    ensures e == n / d && d * e == n
  {
    e := n / d;
  }

  lemma FactorOfFactor(n: nat, p: nat, d: nat)
    requires p > 0 && d > 0 && n % p == 0 && p % d == 0
    ensures n % d == 0
  {
    var e := Cofactor(n, p);
    var f := Cofactor(p, d);
    Multiple(d, f * e);
    assert d * (f * e) == (d * f) * e;
  }

  lemma Multiple(d: nat, e: nat)
    requires d > 0
    ensures (d * e) % d == 0
  {
    Arithmetic.UniqueRemainder(d * e, d, e, 0);
  }

  /** Prime are exactly the numbers from 2 on that are no product of two such numbers. */
  lemma PrimeExactly(n: nat)
    requires n >= 2
    ensures Prime(n) <==> forall a, b :: a >= 2 && b >= 2 ==> n != a * b
  {
    forall a, b | a >= 2 && b >= 2
      ensures n == a * b ==> !Prime(n)
    {
      ProductNotPrime(a, b);
    }
    if !Prime(n) {
      var d :| 2 <= d < n && n % d == 0;
      var e := Cofactor(n, d);
      assert e != 0 && e != 1;
      assert n == d * e;
    }
  }

  lemma ProductNotPrime(a: nat, b: nat)
    requires a >= 2 && b >= 2
    ensures !Prime(a * b)
  {
    Multiple(a, b);
    assert a * b - 2 * a == a * (b - 2) >= 0;
  }

  /** The least factor of a number is prime. */
  lemma LeastFactorIsPrime(p: nat, n: nat)
    requires LeastFactor(p, n)
    ensures Prime(p)
  {
    forall d | 2 <= d < p
      ensures p % d != 0
    {
      if p % d == 0 {
        FactorOfFactor(n, p, d);
      }
    }
  }

  /** A number with no factor up to its square root has none below itself. */
  lemma NoFactorAtAll(n: nat, k: nat)
    requires NoFactorBelow(n, k) && FloorSqrt(n) < k && n >= 2
    ensures Prime(n)
  {
    forall d | 2 <= d < n
      ensures n % d != 0
    {
      if n % d == 0 {
        FactorBelowRoot(n, d, k);
      }
    }
  }

  lemma FactorBelowRoot(n: nat, d: nat, k: nat)
    requires 2 <= d < n && n % d == 0 && FloorSqrt(n) < k
    ensures !NoFactorBelow(n, k)
  {
    hide FloorSqrt;
    var e := Cofactor(n, d);
    assert e != 0 && e != 1;
    var s := FloorSqrt(n) + 1;
    assert s * s > n;
    if d >= s && e >= s {
      Monotone(d, e, s);
    }
    Multiple(e, d);
    assert n == e * d;
  }

  lemma Monotone(a: nat, b: nat, s: nat)
    requires a >= s && b >= s
    ensures a * b >= s * s
  {
    assert (a - s) * b >= 0 && s * (b - s) >= 0;
  }

  lemma OddHasOddFactors(n: nat, d: nat)
    requires n % 2 == 1 && d > 0 && d % 2 == 0
    ensures n % d != 0
  {
    if n % d == 0 {
      FactorOfFactor(n, d, 2);
    }
  }

  lemma RootIsBelow(n: nat)
    requires n >= 3
    ensures FloorSqrt(n) + 1 < n
  {
    hide FloorSqrt;
    var s := FloorSqrt(n);
    if s >= 2 {
      Monotone(s, s, 2);
      assert s * s >= 2 * s by {
        assert (s - 2) * s >= 0;
      }
    }
  }

  lemma FoundFactor(n: nat, i: nat)
    requires 3 <= i <= FloorSqrt(n) + 1 && n % 2 == 1 && n % i == 0 && NoFactorBelow(n, i)
    ensures i * (n / i) == n && LeastFactor(i, n) && n != 1 && !Prime(n)
  {
    hide FloorSqrt;
    RootIsBelow(n);
    var e := Cofactor(n, i);
  }

  lemma NextOdd(n: nat, i: nat)
    requires n % 2 == 1 && i % 2 == 1 && NoFactorBelow(n, i) && i > 0 && n % i != 0
    ensures NoFactorBelow(n, i + 2)
  {
    OddHasOddFactors(n, i + 1);
  }

  /** The factors multiply back, the first is the least factor and so prime; there is no answer
      exactly for 1 and the odd primes. */
  method Factorize(n: nat) returns (r: Option<(nat, nat)>)
    ensures r.Some? ==> r.value.0 * r.value.1 == n && LeastFactor(r.value.0, n) && Prime(r.value.0)
    ensures r.None? <==> n == 1 || (n % 2 == 1 && Prime(n))
  {
    if n % 2 == 0 {
      LeastFactorIsPrime(2, n);
      return Some((2, n / 2));
    }
    assert n % 2 == 1 && NoFactorBelow(n, 3);
    hide *;
    var limit := FloorSqrt(n) + 1;
    var i := 3;
    while i <= limit
      invariant i >= 3 && i % 2 == 1 && NoFactorBelow(n, i)
    {
      if n % i == 0 {
        FoundFactor(n, i);
        LeastFactorIsPrime(i, n);
        return Some((i, n / i));
      }
      NextOdd(n, i);
      i := i + 2;
    }
    if n >= 2 {
      NoFactorAtAll(n, i);
    }
    return None;
  }
}
