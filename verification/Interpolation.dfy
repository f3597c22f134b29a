/**
  Interpolation at zero over the integers modulo m.

  The same theorem serves both secret-sharing schemes of the system: m == 251 is the prime
  field of the byte-wise scheme, and m == 0 is exact integer arithmetic, because Divides(0, x)
  says x == 0.  No division occurs: a weight w for node i is only known by w * Den == Num.
 */
module Interpolation {
  import opened Arithmetic

  // ----- Divisibility and cancellation -----

  ghost predicate Scaled(k: int, m: int, x: int) {
    k * m == x
  }

  ghost predicate Divides(m: int, x: int) {
    exists k :: Scaled(k, m, x)
  }

  // A factor that may be cancelled modulo m.
  ghost predicate Regular(d: int, m: int) {
    forall z :: Divides(m, d * z) ==> Divides(m, z)
  }

  lemma DividesScaled(m: int, k: int)
    ensures Divides(m, k * m)
  {
    assert Scaled(k, m, k * m);
  }

  lemma DividesCombination(m: int, a: int, x: int, b: int, y: int)
    requires Divides(m, x) && Divides(m, y)
    ensures Divides(m, a * x + b * y)
  {
    var j :| Scaled(j, m, x);
    var k :| Scaled(k, m, y);
    assert (a * j + b * k) * m == a * (j * m) + b * (k * m);
    assert Scaled(a * j + b * k, m, a * x + b * y);
  }

  lemma DividesModulo(m: int, x: int)
    requires m > 0
    ensures Divides(m, x) <==> x % m == 0
  {
    var q, r := x / m, x % m;
    assert x == q * m + r;
    if r == 0 {
      assert Scaled(q, m, x);
    }
    if Divides(m, x) {
      var k :| Scaled(k, m, x);
      assert (k - q) * m == k * m - q * m;
      SmallMultiple(k - q, m, r);
    }
  }

  lemma RegularProduct(c: int, d: int, m: int)
    requires Regular(c, m) && Regular(d, m)
    ensures Regular(c * d, m)
  {
    forall z | Divides(m, (c * d) * z)
      ensures Divides(m, z)
    {
      assert (c * d) * z == c * (d * z);
      assert Divides(m, d * z);
    }
  }

  // ----- Polynomials, constant coefficient first -----

  function Eval(c: seq<int>, x: int): int {
    if c == [] then 0 else c[0] + x * Eval(c[1..], x)
  }

  function Power(x: int, n: nat): int {
    if n == 0 then 1 else Power(x, n - 1) * x
  }

  lemma EvalQuadratic(a: int, b: int, c: int, x: int)
    ensures Eval([a, b, c], x) == a + b * x + c * x * x
  {
    assert [c][1..] == [] && [b, c][1..] == [c] && [a, b, c][1..] == [b, c];
    assert Eval([c], x) == c + x * 0;
    assert Eval([b, c], x) == b + x * c;
    assert x * (b + x * c) == b * x + c * x * x;
  }

  lemma {:induction false} EvalSnoc(c: seq<int>, a: int, x: int)
    ensures Eval(c + [a], x) == Eval(c, x) + a * Power(x, |c|)
  {
    if c == [] {
      assert (c + [a])[1..] == [];
    } else {
      EvalSnoc(c[1..], a, x);
      assert (c + [a])[1..] == c[1..] + [a];
      assert x * (a * Power(x, |c| - 1)) == a * (Power(x, |c| - 1) * x);
      assert x * (Eval(c[1..], x) + a * Power(x, |c| - 1)) == x * Eval(c[1..], x) + a * Power(x, |c|);
    }
  }

  function Combination(u: int, c: seq<int>, v: int, d: seq<int>): (r: seq<int>)
    requires |c| == |d|
    ensures |r| == |c|
  {
    if c == [] then [] else [u * c[0] + v * d[0]] + Combination(u, c[1..], v, d[1..])
  }

  lemma HornerLinear(u: int, a: int, p: int, v: int, b: int, q: int, x: int)
    ensures u * a + v * b + x * (u * p + v * q) == u * (a + x * p) + v * (b + x * q)
  {
  }

  lemma {:induction false} EvalCombination(u: int, c: seq<int>, v: int, d: seq<int>, x: int)
    requires |c| == |d|
    ensures Eval(Combination(u, c, v, d), x) == u * Eval(c, x) + v * Eval(d, x)
  {
    if c != [] {
      EvalCombination(u, c[1..], v, d[1..], x);
      assert Combination(u, c, v, d)[1..] == Combination(u, c[1..], v, d[1..]);
      HornerLinear(u, c[0], Eval(c[1..], x), v, d[0], Eval(d[1..], x), x);
    }
  }

  // The quotient of c by (X - a), by synthetic division.
  function Quotient(c: seq<int>, a: int): (r: seq<int>)
    ensures |r| == if c == [] then 0 else |c| - 1
  {
    if |c| <= 1 then [] else [Eval(c[1..], a)] + Quotient(c[1..], a)
  }

  lemma FactorStep(k: int, p: int, q: int, r: int, x: int, a: int)
    requires p - q == (x - a) * r
    ensures (k + x * p) - (k + a * q) == (x - a) * (q + x * r)
  {
    assert x * p - a * q == x * (p - q) + (x - a) * q;
    assert x * ((x - a) * r) == (x - a) * (x * r);
  }

  lemma {:induction false} FactorTheorem(c: seq<int>, a: int, x: int)
    ensures Eval(c, x) - Eval(c, a) == (x - a) * Eval(Quotient(c, a), x)
  {
    if |c| > 1 {
      FactorTheorem(c[1..], a, x);
      assert Quotient(c, a)[1..] == Quotient(c[1..], a);
      FactorStep(c[0], Eval(c[1..], x), Eval(c[1..], a), Eval(Quotient(c[1..], a), x), x, a);
    } else if |c| == 1 {
      assert c[1..] == [];
    }
  }

  // The coefficients of (X - a) * c(X).
  function TimesLinear(c: seq<int>, a: int): (r: seq<int>)
    ensures |r| == |c| + 1
  {
    if c == [] then [0]
    else
      var t := TimesLinear(c[1..], a);
      [-a * c[0], t[0] + c[0]] + t[1..]
  }

  lemma LinearFactorStep(k: int, p: int, t: int, x: int, a: int)
    requires t == (x - a) * p
    ensures -a * k + x * (k + t) == (x - a) * (k + x * p)
  {
    assert x * ((x - a) * p) == (x - a) * (x * p);
  }

  lemma {:induction false} EvalTimesLinear(c: seq<int>, a: int, x: int)
    ensures Eval(TimesLinear(c, a), x) == (x - a) * Eval(c, x)
  {
    if c == [] {
      assert TimesLinear(c, a)[1..] == [];
    } else {
      EvalTimesLinear(c[1..], a, x);
      var t, r := TimesLinear(c[1..], a), TimesLinear(c, a);
      assert r[1..] == [t[0] + c[0]] + t[1..];
      assert r[1..][1..] == t[1..];
      assert Eval(r[1..], x) == c[0] + Eval(t, x);
      LinearFactorStep(c[0], Eval(c[1..], x), Eval(t, x), x, a);
    }
  }

  // ----- Lagrange basis -----

  // The product of (x - xs[k]) over the first n nodes, leaving node i out.
  function SkipProduct(xs: seq<int>, i: nat, n: nat, x: int): int
    requires n <= |xs|
  {
    if n == 0 then 1
    else if n - 1 == i then SkipProduct(xs, i, n - 1, x)
    else SkipProduct(xs, i, n - 1, x) * (x - xs[n - 1])
  }

  function Num(xs: seq<int>, i: nat): int
    requires i < |xs|
  {
    SkipProduct(xs, i, |xs|, 0)
  }

  function Den(xs: seq<int>, i: nat): int
    requires i < |xs|
  {
    SkipProduct(xs, i, |xs|, xs[i])
  }

  // The basis polynomial whose value at x is SkipProduct(xs, i, n, x).
  function Basis(xs: seq<int>, i: nat, n: nat): (c: seq<int>)
    requires n <= |xs|
    ensures |c| == if i < n then n else n + 1
  {
    if n == 0 then [1]
    else if n - 1 == i then Basis(xs, i, n - 1)
    else TimesLinear(Basis(xs, i, n - 1), xs[n - 1])
  }

  lemma {:induction false} EvalBasis(xs: seq<int>, i: nat, n: nat, x: int)
    requires n <= |xs|
    ensures Eval(Basis(xs, i, n), x) == SkipProduct(xs, i, n, x)
  {
    if n == 0 {
      assert Eval([1][1..], x) == 0;
    } else {
      EvalBasis(xs, i, n - 1, x);
      EvalTimesLinear(Basis(xs, i, n - 1), xs[n - 1], x);
      assert (x - xs[n - 1]) * SkipProduct(xs, i, n - 1, x) == SkipProduct(xs, i, n - 1, x) * (x - xs[n - 1]);
    }
  }

  lemma {:induction false} SkipProductRoot(xs: seq<int>, i: nat, n: nat, j: nat)
    requires j < n <= |xs| && i != j
    ensures SkipProduct(xs, i, n, xs[j]) == 0
  {
    if n - 1 != j {
      SkipProductRoot(xs, i, n - 1, j);
    }
  }

  // All differences of two nodes can be cancelled.
  ghost predicate Separated(xs: seq<int>, m: int) {
    forall i, j :: 0 <= i < |xs| && 0 <= j < |xs| && i != j ==> Regular(xs[i] - xs[j], m)
  }

  lemma {:induction false} SkipProductRegular(xs: seq<int>, i: nat, n: nat, m: int)
    requires i < |xs| && n <= |xs| && Separated(xs, m)
    ensures Regular(SkipProduct(xs, i, n, xs[i]), m)
  {
    if n == 0 {
      forall z | Divides(m, 1 * z) ensures Divides(m, z) { assert 1 * z == z; }
    } else {
      SkipProductRegular(xs, i, n - 1, m);
      if n - 1 != i {
        RegularProduct(SkipProduct(xs, i, n - 1, xs[i]), xs[i] - xs[n - 1], m);
      }
    }
  }

  /** A polynomial with at least as many separated roots as coefficients vanishes everywhere. */
  lemma {:induction false} RootsBound(c: seq<int>, xs: seq<int>, m: int, x: int)
    requires |c| <= |xs| && Separated(xs, m)
    requires forall i :: 0 <= i < |xs| ==> Divides(m, Eval(c, xs[i]))
    ensures Divides(m, Eval(c, x))
    decreases |c|
  {
    if c == [] {
      DividesScaled(m, 0);
    } else {
      var a, rest, q := xs[0], xs[1..], Quotient(c, xs[0]);
      forall i | 0 <= i < |rest|
        ensures Divides(m, Eval(q, rest[i]))
      {
        FactorTheorem(c, a, rest[i]);
        assert rest[i] == xs[i + 1];
        DividesCombination(m, 1, Eval(c, rest[i]), -1, Eval(c, a));
        assert Regular(xs[i + 1] - xs[0], m);
        assert Divides(m, (rest[i] - a) * Eval(q, rest[i]));
      }
      forall i, j | 0 <= i < |rest| && 0 <= j < |rest| && i != j
        ensures Regular(rest[i] - rest[j], m)
      {
        assert Regular(xs[i + 1] - xs[j + 1], m);
      }
      RootsBound(q, rest, m, x);
      FactorTheorem(c, a, x);
      DividesCombination(m, 1, Eval(c, a), x - a, Eval(q, x));
    }
  }

  // ----- The weighted sum of a polynomial's values at the first n nodes -----

  function Sample(c: seq<int>, xs: seq<int>, w: seq<int>, n: nat): int
    requires n <= |xs| == |w|
  {
    if n == 0 then 0 else Sample(c, xs, w, n - 1) + Eval(c, xs[n - 1]) * w[n - 1]
  }

  lemma {:induction false} SampleDivides(c: seq<int>, xs: seq<int>, w: seq<int>, n: nat, m: int)
    requires n <= |xs| == |w|
    requires forall i :: 0 <= i < n ==> Divides(m, Eval(c, xs[i]))
    ensures Divides(m, Sample(c, xs, w, n))
  {
    if n == 0 {
      DividesScaled(m, 0);
    } else {
      SampleDivides(c, xs, w, n - 1, m);
      DividesCombination(m, 1, Sample(c, xs, w, n - 1), w[n - 1], Eval(c, xs[n - 1]));
    }
  }

  lemma LinearStep(u: int, s: int, p: int, v: int, t: int, q: int, z: int)
    ensures (u * s + v * t) + (u * p + v * q) * z == u * (s + p * z) + v * (t + q * z)
  {
    assert (u * p + v * q) * z == u * (p * z) + v * (q * z);
    assert u * (s + p * z) == u * s + u * (p * z);
    assert v * (t + q * z) == v * t + v * (q * z);
  }

  lemma {:induction false} SampleCombination(u: int, c: seq<int>, v: int, d: seq<int>, xs: seq<int>, w: seq<int>, n: nat)
    requires n <= |xs| == |w| && |c| == |d|
    ensures Sample(Combination(u, c, v, d), xs, w, n) == u * Sample(c, xs, w, n) + v * Sample(d, xs, w, n)
  {
    if n != 0 {
      SampleCombination(u, c, v, d, xs, w, n - 1);
      EvalCombination(u, c, v, d, xs[n - 1]);
      LinearStep(u, Sample(c, xs, w, n - 1), Eval(c, xs[n - 1]), v, Sample(d, xs, w, n - 1), Eval(d, xs[n - 1]), w[n - 1]);
    }
  }

  lemma {:induction false} SampleBasis(xs: seq<int>, i: nat, w: seq<int>, n: nat)
    requires i < |xs| == |w| && n <= |xs|
    ensures Sample(Basis(xs, i, |xs|), xs, w, n) == if i < n then Den(xs, i) * w[i] else 0
  {
    if n != 0 {
      SampleBasis(xs, i, w, n - 1);
      EvalBasis(xs, i, |xs|, xs[n - 1]);
      if n - 1 != i {
        SkipProductRoot(xs, i, |xs|, n - 1);
      }
    }
  }

  // w holds the Lagrange weights at zero of the nodes xs.
  ghost predicate Weights(xs: seq<int>, w: seq<int>, m: int) {
    |w| == |xs| && forall i :: 0 <= i < |xs| ==> Divides(m, Den(xs, i) * w[i] - Num(xs, i))
  }

  lemma EliminateNode(m: int, d: int, s: int, p: int, e: int, w: int, q: int)
    requires Divides(m, (d * s + (-e) * (d * w)) - (d * p + (-e) * q))
    requires Divides(m, d * w - q)
    ensures Divides(m, d * (s - p))
  {
    var x, y := (d * s + (-e) * (d * w)) - (d * p + (-e) * q), d * w - q;
    DividesCombination(m, 1, x, e, y);
    calc {
      1 * x + e * y;
      { assert e * y == e * (d * w) - e * q; assert (-e) * (d * w) == -(e * (d * w)); assert (-e) * q == -(e * q); }
      d * s - d * p;
      d * (s - p);
    }
  }

  // Subtracting the right multiple of the basis polynomial of node i makes c vanish there, and
  // where it vanished before.
  lemma NodeCleared(c: seq<int>, xs: seq<int>, m: int, i: nat, j: nat)
    requires |c| == |xs| && i < |xs| && j < |xs| && (j != i ==> Divides(m, Eval(c, xs[j])))
    ensures Divides(m, Eval(Combination(Den(xs, i), c, -Eval(c, xs[i]), Basis(xs, i, |xs|)), xs[j]))
  {
    hide Divides, Combination, Basis, Eval;
    var b, e, d := Basis(xs, i, |xs|), Eval(c, xs[i]), Den(xs, i);
    EvalCombination(d, c, -e, b, xs[j]);
    EvalBasis(xs, i, |xs|, xs[j]);
    if j == i {
      assert d * e + (-e) * d == 0 * m;
      DividesScaled(m, 0);
    } else {
      SkipProductRoot(xs, i, |xs|, j);
      DividesCombination(m, d, Eval(c, xs[j]), 0, Eval(c, xs[j]));
    }
  }

  lemma Eliminated(c: seq<int>, xs: seq<int>, w: seq<int>, m: int, i: nat)
    requires |c| == |xs| == |w| && i < |xs| && Divides(m, Den(xs, i) * w[i] - Num(xs, i))
    requires
      var c' := Combination(Den(xs, i), c, -Eval(c, xs[i]), Basis(xs, i, |xs|));
      Divides(m, Sample(c', xs, w, |xs|) - Eval(c', 0))
    ensures Divides(m, Den(xs, i) * (Sample(c, xs, w, |xs|) - Eval(c, 0)))
  {
    hide Divides;
    var b, e, d := Basis(xs, i, |xs|), Eval(c, xs[i]), Den(xs, i);
    SampleCombination(d, c, -e, b, xs, w, |xs|);
    SampleBasis(xs, i, w, |xs|);
    EvalCombination(d, c, -e, b, 0);
    EvalBasis(xs, i, |xs|, 0);
    EliminateNode(m, d, Sample(c, xs, w, |xs|), Eval(c, 0), e, w[i], Num(xs, i));
  }

  // Interpolation for a polynomial that vanishes at all nodes from the n-th on.
  lemma {:induction false} InterpolateFrom(c: seq<int>, xs: seq<int>, w: seq<int>, m: int, n: nat)
    requires |c| == |xs| && n <= |xs| && Separated(xs, m) && Weights(xs, w, m)
    requires forall i :: n <= i < |xs| ==> Divides(m, Eval(c, xs[i]))
    ensures Divides(m, Sample(c, xs, w, |xs|) - Eval(c, 0))
    decreases n
  {
    hide Combination, Eval, Sample;
    if n == 0 {
      RootsBound(c, xs, m, 0);
      SampleDivides(c, xs, w, |xs|, m);
      DividesCombination(m, 1, Sample(c, xs, w, |xs|), -1, Eval(c, 0));
    } else {
      var i := n - 1;
      var b, e, d := Basis(xs, i, |xs|), Eval(c, xs[i]), Den(xs, i);
      var c' := Combination(d, c, -e, b);
      forall j | i <= j < |xs|
        ensures Divides(m, Eval(c', xs[j]))
      {
        NodeCleared(c, xs, m, i, j);
      }
      InterpolateFrom(c', xs, w, m, i);
      Eliminated(c, xs, w, m, i);
      SkipProductRegular(xs, i, |xs|, m);
      assert Divides(m, d * (Sample(c, xs, w, |xs|) - Eval(c, 0)));
    }
  }

  /** A polynomial with as many coefficients as there are nodes is determined at zero by its
      values at the nodes: the Lagrange-weighted sum of those values is the constant term. */
  lemma Interpolate(c: seq<int>, xs: seq<int>, w: seq<int>, m: int)
    requires |c| == |xs| && Separated(xs, m) && Weights(xs, w, m)
    ensures Divides(m, Sample(c, xs, w, |xs|) - Eval(c, 0))
  {
    InterpolateFrom(c, xs, w, m, |xs|);
  }
}
