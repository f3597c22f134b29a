/**
  Shamir sharing of a 32-byte secret, byte by byte, in the field of residues modulo 251
  (crates/crypto-pqc/src/secret_sharing.rs).  Intermediate values stay far inside the source's
  64-bit integers, so they are unbounded here.  The random coefficients are a parameter.
 */
module SecretSharing {
  import opened Bytes
  import opened Interpolation
  import opened Wrappers

  const WIDTH := 32

  // ----- The field of residues modulo 251 -----

  // The source's remainder operator: truncated, so it keeps the sign of the dividend.
  function Rem(a: int): (r: int)
    ensures -251 < r < 251
    ensures a >= 0 ==> r == a % 251
  {
    if a >= 0 then a % 251 else -((-a) % 251)
  }

  ghost predicate Same(x: int, y: int) {
    Divides(251, x - y)
  }

  lemma SameResidue(x: int, y: int)
    ensures Same(x, y) <==> x % 251 == y % 251
  {
    DividesModulo(251, x - y);
    var qx, qy := x / 251, y / 251;
    assert x - y == 251 * (qx - qy) + (x % 251 - y % 251);
  }

  lemma SameSymmetric(x: int, y: int)
    requires Same(x, y)
    ensures Same(y, x)
  {
    DividesCombination(251, -1, x - y, 0, x - y);
  }

  lemma SameTransitive(x: int, y: int, z: int)
    requires Same(x, y) && Same(y, z)
    ensures Same(x, z)
  {
    DividesCombination(251, 1, x - y, 1, y - z);
  }

  lemma SameSum(x: int, y: int, u: int, v: int)
    requires Same(x, y) && Same(u, v)
    ensures Same(x + u, y + v)
  {
    DividesCombination(251, 1, x - y, 1, u - v);
  }

  lemma SameProduct(x: int, y: int, u: int, v: int)
    requires Same(x, y) && Same(u, v)
    ensures Same(x * u, y * v)
  {
    DividesCombination(251, u, x - y, y, u - v);
    assert u * (x - y) + y * (u - v) == x * u - y * v;
  }

  lemma SameReflexive(x: int)
    ensures Same(x, x)
  {
    DividesScaled(251, 0);
  }

  lemma RemSame(a: int)
    ensures Same(Rem(a), a) && Same(a, Rem(a))
  {
    SameResidue(Rem(a), a);
    SameResidue(a, Rem(a));
  }

  lemma ModSame(a: int)
    ensures Same(a % 251, a) && Same(a, a % 251)
  {
    SameResidue(a % 251, a);
    SameResidue(a, a % 251);
  }

  // Truncation can be postponed: reducing after every factor is reducing the whole product.
  lemma RemProduct(a: int, b: int)
    ensures Rem(Rem(a) * b) == Rem(a * b)
  {
    RemSame(a);
    SameReflexive(b);
    SameProduct(a, Rem(a), b, b);
    RemOfSame(a * b, Rem(a) * b);
    if Rem(a) == 0 {
      SameResidue(a * b, 0 * b);
    } else if a > 0 {
      SameSign(a, Rem(a), b);
    } else {
      SameSign(-a, -Rem(a), b);
      assert (-a) * b == -(a * b) && (-Rem(a)) * b == -(Rem(a) * b);
    }
  }

  lemma SameSign(a: int, r: int, b: int)
    requires a > 0 && r > 0
    ensures (a * b > 0 <==> r * b > 0) && (a * b < 0 <==> r * b < 0)
  {
    if b > 0 {
      assert a * b > 0 && r * b > 0;
    } else if b < 0 {
      assert a * -b > 0 && r * -b > 0;
      assert a * b < 0 && r * b < 0;
    }
  }

  lemma RemOfSame(x: int, y: int)
    requires Same(x, y)
    ensures x % 251 == y % 251
    ensures (x >= 0) == (y >= 0) || x % 251 == 0 ==> Rem(x) == Rem(y)
  {
    SameResidue(x, y);
    SameResidue(-y, -x);
    assert (-y) - (-x) == x - y;
  }

  lemma NoDivisor(a: int)
    requires 2 <= a < 251
    ensures 251 % a != 0
  {
    var q := 251 / a;
    assert 251 == q * a + 251 % a;
    if a > 15 {
      LargeFactors(q, a);
      SmallFactor(q, a);
    }
  }

  lemma LargeFactors(q: int, a: int)
    requires a >= 16
    ensures q >= 16 ==> q * a >= 256
  {
    if q >= 16 {
      assert (q - 16) * (a - 16) >= 0;
    }
  }

  lemma SmallFactor(q: int, a: int)
    requires 0 <= q <= 15
    ensures q * a == 251 ==> q == 1
  {
    assert q == 0 || q == 1 || q == 2 || q == 3 || q == 4 || q == 5 || q == 6 || q == 7
      || q == 8 || q == 9 || q == 10 || q == 11 || q == 12 || q == 13 || q == 14 || q == 15;
  }

  // Every residue other than 0 has an inverse, by Euclid's algorithm on the prime 251.
  lemma {:induction false} InverseExists(a: int) returns (e: int)
    requires 1 <= a < 251
    ensures 1 <= e < 251 && (a * e) % 251 == 1 && Same(a * e, 1)
    decreases a
  {
    if a == 1 {
      e := 1;
      SameReflexive(1);
    } else {
      NoDivisor(a);
      var q, r := 251 / a, 251 % a;
      var f := InverseExists(r);
      e := (-q * f) % 251;
      ModSame(-q * f);
      SameReflexive(a);
      SameProduct(a, a, e, -q * f);
      EuclidStep(a, q, r, f);
      SameTransitive(a * e, a * (-q * f), r * f);
      SameTransitive(a * e, r * f, 1);
      SameResidue(a * e, 1);
    }
  }

  lemma EuclidStep(a: int, q: int, r: int, f: int)
    requires r == 251 - q * a
    ensures Same(a * (-q * f), r * f)
  {
    assert r * f == 251 * f - (q * a) * f;
    assert a * (-q * f) - r * f == (-f) * 251 by {
      assert a * (-q * f) == -((q * a) * f);
    }
    DividesScaled(251, -f);
  }

  lemma FieldRegular(d: int)
    requires d % 251 != 0
    ensures Regular(d, 251)
  {
    var a := d % 251;
    var e := InverseExists(a);
    ModSame(d);
    SameReflexive(e);
    SameProduct(d, a, e, e);
    SameTransitive(d * e, a * e, 1);
    forall z | Divides(251, d * z)
      ensures Divides(251, z)
    {
      SameReflexive(z);
      SameProduct(d * e, 1, z, z);
      DividesCombination(251, e, d * z, -1, (d * e) * z - 1 * z);
      assert (d * e) * z == e * (d * z);
    }
  }

  ghost predicate Distinct(xs: seq<int>) {
    forall i, j :: 0 <= i < j < |xs| ==> (xs[i] - xs[j]) % 251 != 0
  }

  lemma DistinctSeparated(xs: seq<int>)
    requires Distinct(xs)
    ensures Separated(xs, 251)
  {
    forall i, j | 0 <= i < |xs| && 0 <= j < |xs| && i != j
      ensures Regular(xs[i] - xs[j], 251)
    {
      if j < i {
        DividesModulo(251, xs[j] - xs[i]);
        DividesModulo(251, xs[i] - xs[j]);
        if Divides(251, xs[i] - xs[j]) {
          DividesCombination(251, -1, xs[i] - xs[j], 0, xs[i] - xs[j]);
        }
      }
      FieldRegular(xs[i] - xs[j]);
    }
  }

  // ----- The inverse search -----

  // The first d in d..250 with Rem(den * d) == 1, and 1 when there is none.
  function Search(den: int, d: nat): (r: int)
    requires 1 <= d <= 251
    decreases 251 - d
  {
    if d == 251 then 1
    else if Rem(den * d) == 1 then d
    else Search(den, d + 1)
  }

  lemma {:induction false} SearchMisses(den: int, d: nat)
    requires 1 <= d <= 251 && den <= 0
    ensures Search(den, d) == 1
    decreases 251 - d
  {
    if d < 251 {
      assert den * d <= 0;
      SearchMisses(den, d + 1);
    }
  }

  lemma {:induction false} SearchFinds(den: int, d: nat, e: nat)
    requires 1 <= d <= e < 251 && Rem(den * e) == 1
    ensures 1 <= Search(den, d) < 251 && Rem(den * Search(den, d)) == 1
    decreases 251 - d
  {
    if Rem(den * d) != 1 {
      SearchFinds(den, d + 1, e);
    }
  }

  /** The search yields the inverse of a reduced denominator exactly when that is positive, or is
      -250, whose inverse is 1; for a negative denominator it always leaves 1. */
  lemma SearchExact(den: int)
    requires -251 < den < 251 && den != 0
    ensures (den * Search(den, 1)) % 251 == 1 <==> den > 0 || den == -250
    ensures den < 0 ==> Search(den, 1) == 1
  {
    hide Search, Rem;
    if den > 0 {
      var e := InverseExists(den);
      RemOfProduct(den, e);
      SearchFinds(den, 1, e);
      RemOfProduct(den, Search(den, 1));
    } else {
      SearchMisses(den, 1);
      assert den * Search(den, 1) == den;
      assert den % 251 == den + 251;
    }
  }

  lemma RemOfProduct(a: int, b: int)
    requires a > 0 && b > 0
    ensures Rem(a * b) == (a * b) % 251
  {
    assert a * b > 0;
  }

  method InverseSearch(den: int) returns (denInv: int)
    ensures denInv == Search(den, 1)
  {
    denInv := 1;
    var d := 1;
    while d < 251
      invariant 1 <= d <= 251
      invariant denInv == 1 && Search(den, 1) == Search(den, d)
    {
      if Rem(den * d) == 1 {
        denInv := d;
        break;
      }
      d := d + 1;
    }
  }

  // ----- Splitting -----

  // The polynomial that shares byte j, constant term first.
  function Polynomial(secret: seq<byte>, coefficients: seq<seq<byte>>, j: nat): (c: seq<int>)
    requires j < |secret| && forall n :: 0 <= n < |coefficients| ==> j < |coefficients[n]|
    ensures |c| == |coefficients| + 1
  {
    [secret[j]] + seq(|coefficients|, n requires 0 <= n < |coefficients| => coefficients[n][j])
  }

  function Share(secret: seq<byte>, coefficients: seq<seq<byte>>, x: byte): (s: seq<byte>)
    requires |secret| == WIDTH && forall n :: 0 <= n < |coefficients| ==> |coefficients[n]| == WIDTH
    ensures |s| == 33 && s[0] == x
  {
    [x] + seq(WIDTH, j requires 0 <= j < WIDTH => Eval(Polynomial(secret, coefficients, j), x) % 251)
  }

  /** A share at x has the byte x in front; behind it, with two random coefficients, the values of
      quadratic polynomials that have the secret for their constant terms. */
  lemma ShareSpelledOut(secret: seq<byte>, a: seq<byte>, b: seq<byte>, x: byte, j: nat)
    requires |secret| == |a| == |b| == 32 && j < 32
    ensures Share(secret, [a, b], x)[0] == x
    ensures Share(secret, [a, b], x)[1 + j] == (secret[j] + a[j] * x + b[j] * x * x) % 251
  {
    assert Polynomial(secret, [a, b], j) == [secret[j] as int, a[j], b[j]];
    EvalQuadratic(secret[j], a[j], b[j], x);
  }

  /** Remainders are truncated: they keep the sign of the dividend. */
  lemma RemTruncates(a: int)
    requires a >= 0
    ensures Rem(a) == a % 251 && Rem(-a) == -(a % 251)
  {
  }

  method Split(secret: seq<byte>, total: byte, threshold: byte, coefficients: seq<seq<byte>>)
    returns (r: Result<seq<seq<byte>>, string>)
    requires |secret| == 32
    requires |coefficients| == if threshold == 0 then 0 else threshold - 1
    requires forall n :: 0 <= n < |coefficients| ==> |coefficients[n]| == 32
    ensures r.Success? <==> 2 <= threshold <= total
    ensures r.Failure? ==>
      r.error == if threshold > total then "Threshold must be <= total shares" else "Threshold must be >= 2"
    ensures r.Success? ==>
      |r.value| == total && forall i :: 0 <= i < total ==> r.value[i] == Share(secret, coefficients, i + 1)
  {
    if threshold > total {
      return Failure("Threshold must be <= total shares");
    }
    if threshold < 2 {
      return Failure("Threshold must be >= 2");
    }
    var shares: seq<seq<byte>> := [];
    for i := 1 to total + 1
      invariant |shares| == i - 1
      invariant forall k :: 0 <= k < i - 1 ==> shares[k] == Share(secret, coefficients, k + 1)
    {
      var x: byte := i;
      var value := new byte[WIDTH](_ => 0);
      for j := 0 to WIDTH
        invariant forall k :: 0 <= k < j ==> value[k] == Share(secret, coefficients, x)[1 + k]
      {
        var y := ShareByte(secret, coefficients, x, j);
        value[j] := if y < 0 then y + 251 else y;
      }
      assert [x] + value[..] == Share(secret, coefficients, x);
      shares := shares + [[x] + value[..]];
    }
    return Success(shares);
  }

  // The innermost loop of split: one byte of the share at x.
  method ShareByte(secret: seq<byte>, coefficients: seq<seq<byte>>, x: byte, j: nat) returns (y: int)
    requires j < |secret| && |coefficients| > 0
    requires forall n :: 0 <= n < |coefficients| ==> j < |coefficients[n]|
    ensures -251 < y < 251
    ensures (if y < 0 then y + 251 else y) == Eval(Polynomial(secret, coefficients, j), x) % 251
  {
    ghost var c := Polynomial(secret, coefficients, j);
    y := secret[j];
    var xPow := 1;
    assert c[..1] == [c[0]] && c[..1][1..] == [];
    SameReflexive(1);
    SameReflexive(y);
    for n := 0 to |coefficients|
      invariant 0 <= xPow && Same(xPow, Power(x, n))
      invariant 0 <= y && Same(y, Eval(c[..n + 1], x)) && (n > 0 ==> y < 251)
    {
      StepPower(x, n, xPow);
      xPow := Rem(xPow * x);
      StepEval(c, n, x, y, xPow);
      y := Rem(y + coefficients[n][j] * xPow);
    }
    assert c[..|coefficients| + 1] == c;
    SameResidue(y, Eval(c, x));
  }

  lemma StepPower(x: int, n: nat, xPow: int)
    requires x >= 0 && xPow >= 0 && Same(xPow, Power(x, n))
    ensures Rem(xPow * x) >= 0 && Same(Rem(xPow * x), Power(x, n + 1))
  {
    SameReflexive(x);
    SameProduct(xPow, Power(x, n), x, x);
    RemSame(xPow * x);
    SameTransitive(Rem(xPow * x), xPow * x, Power(x, n) * x);
    assert xPow * x >= 0;
  }

  lemma StepEval(c: seq<int>, n: nat, x: int, y: int, xPow: int)
    requires n + 1 < |c| && c[n + 1] >= 0 && y >= 0 && xPow >= 0
    requires Same(y, Eval(c[..n + 1], x)) && Same(xPow, Power(x, n + 1))
    ensures Rem(y + c[n + 1] * xPow) >= 0
    ensures Same(Rem(y + c[n + 1] * xPow), Eval(c[..n + 2], x))
  {
    var e, p, a := Eval(c[..n + 1], x), Power(x, n + 1), c[n + 1];
    assert c[..n + 2] == c[..n + 1] + [a];
    EvalSnoc(c[..n + 1], a, x);
    SameReflexive(a);
    SameProduct(a, a, xPow, p);
    SameSum(y, e, a * xPow, a * p);
    RemSame(y + a * xPow);
    SameTransitive(Rem(y + a * xPow), y + a * xPow, e + a * p);
    assert a * xPow >= 0;
  }

  // ----- Combining -----

  // What the code takes for 1 / Den.  As written the search sees the truncated remainder;
  // normalised, it sees the residue.
  function DenInverse(xs: seq<int>, i: nat, normalised: bool): int
    requires i < |xs|
  {
    Search(if normalised then Den(xs, i) % 251 else Rem(Den(xs, i)), 1)
  }

  function Weight(xs: seq<int>, i: nat, normalised: bool): int
    requires i < |xs|
  {
    Num(xs, i) * DenInverse(xs, i, normalised)
  }

  function WeightSum(xs: seq<int>, ys: seq<int>, n: nat, normalised: bool): int
    requires n <= |xs| == |ys|
  {
    if n == 0 then 0
    else WeightSum(xs, ys, n - 1, normalised) + ys[n - 1] * Weight(xs, n - 1, normalised)
  }

  function CombineByte(xs: seq<int>, ys: seq<int>, normalised: bool): (b: byte)
    requires |xs| == |ys|
  {
    WeightSum(xs, ys, |xs|, normalised) % 251
  }

  function Column(shares: seq<seq<byte>>, n: nat, j: nat): (c: seq<int>)
    requires n <= |shares| && forall i :: 0 <= i < n ==> j < |shares[i]|
    ensures |c| == n
  {
    seq(n, i requires 0 <= i < n => shares[i][j])
  }

  function CombineShares(shares: seq<seq<byte>>, threshold: byte, normalised: bool): (s: seq<byte>)
    requires threshold <= |shares| && forall i :: 0 <= i < threshold ==> |shares[i]| > WIDTH
    ensures |s| == WIDTH
  {
    seq(WIDTH, j requires 0 <= j < WIDTH =>
      CombineByte(Column(shares, threshold, 0), Column(shares, threshold, 1 + j), normalised))
  }

  /** The source is the case normalised == false; the other case reduces den to its residue
      before the search, as working in the field intends. */
  method Combine(shares: seq<seq<byte>>, threshold: byte, normalised: bool) returns (r: Result<seq<byte>, string>)
    requires threshold <= |shares| ==> forall i :: 0 <= i < threshold ==> |shares[i]| > 32
    ensures r.Success? <==> threshold <= |shares|
    ensures r.Failure? ==> r.error == "Not enough shares"
    ensures r.Success? ==> r.value == CombineShares(shares, threshold, normalised)
  {
    if |shares| < threshold {
      return Failure("Not enough shares");
    }
    var secret := new byte[WIDTH](_ => 0);
    for j := 0 to WIDTH
      invariant forall k :: 0 <= k < j ==> secret[k] == CombineShares(shares, threshold, normalised)[k]
    {
      var result := CombineColumn(shares, threshold, normalised, j);
      secret[j] := if result < 0 then result + 251 else result;
    }
    assert secret[..] == CombineShares(shares, threshold, normalised);
    return Success(secret[..]);
  }

  // The body of combine for one byte; the caller shifts a negative result into 0..250.
  method CombineColumn(shares: seq<seq<byte>>, threshold: byte, normalised: bool, j: nat) returns (result: int)
    requires threshold <= |shares| && j < WIDTH && forall i :: 0 <= i < threshold ==> |shares[i]| > WIDTH
    ensures -251 < result < 251
    ensures (if result < 0 then result + 251 else result)
      == CombineByte(Column(shares, threshold, 0), Column(shares, threshold, 1 + j), normalised)
  {
    ghost var xs, ys := Column(shares, threshold, 0), Column(shares, threshold, 1 + j);
    result := 0;
    SameReflexive(0);
    for i := 0 to threshold
      invariant -251 < result < 251
      invariant Same(result, WeightSum(xs, ys, i, normalised))
    {
      var num, den := NodeProducts(shares, threshold, i);
      RemResidue(Den(xs, i));
      var denInv := InverseSearch(if normalised then den % 251 else den);
      assert denInv == DenInverse(xs, i, normalised);
      StepSum(result, WeightSum(xs, ys, i, normalised), ys[i], Num(xs, i), denInv);
      result := Rem(result + shares[i][1 + j] * num * denInv);
    }
    SmallResidue(result, WeightSum(xs, ys, threshold, normalised));
  }

  lemma RemResidue(a: int)
    ensures Rem(a) % 251 == a % 251
  {
    RemSame(a);
    SameResidue(Rem(a), a);
  }

  lemma SmallResidue(r: int, x: int)
    requires -251 < r < 251 && Same(r, x)
    ensures (if r < 0 then r + 251 else r) == x % 251
  {
    SameResidue(r, x);
  }

  // The numerator and denominator of node i, each reduced after every factor.
  method NodeProducts(shares: seq<seq<byte>>, threshold: byte, i: nat) returns (num: int, den: int)
    requires i < threshold <= |shares| && forall i :: 0 <= i < threshold ==> |shares[i]| > WIDTH
    ensures num == Rem(Num(Column(shares, threshold, 0), i))
    ensures den == Rem(Den(Column(shares, threshold, 0), i))
  {
    ghost var xs := Column(shares, threshold, 0);
    var xi := shares[i][0];
    num, den := 1, 1;
    for k := 0 to threshold
      invariant num == Rem(SkipProduct(xs, i, k, 0))
      invariant den == Rem(SkipProduct(xs, i, k, xi))
    {
      if i != k {
        var xk := shares[k][0];
        RemProduct(SkipProduct(xs, i, k, 0), -xs[k]);
        RemProduct(SkipProduct(xs, i, k, xi), xi - xs[k]);
        num := Rem(num * (-xk));
        den := Rem(den * (xi - xk));
      }
    }
  }

  lemma StepSum(result: int, sum: int, y: int, n: int, inv: int)
    requires Same(result, sum)
    ensures Same(Rem(result + y * Rem(n) * inv), sum + y * (n * inv))
  {
    RemSame(n);
    SameReflexive(y);
    SameReflexive(inv);
    SameProduct(y, y, Rem(n), n);
    SameProduct(y * Rem(n), y * n, inv, inv);
    SameSum(result, sum, y * Rem(n) * inv, y * n * inv);
    var t := result + y * Rem(n) * inv;
    RemSame(t);
    SameTransitive(Rem(t), t, sum + y * n * inv);
    assert y * n * inv == y * (n * inv);
  }

  // ----- Round trip -----

  function Weights251(xs: seq<int>, normalised: bool): (w: seq<int>)
    ensures |w| == |xs|
  {
    seq(|xs|, i requires 0 <= i < |xs| => Weight(xs, i, normalised))
  }

  lemma {:induction false} WeightSumIsSample(c: seq<int>, xs: seq<int>, ys: seq<int>, n: nat, normalised: bool)
    requires n <= |xs| == |ys|
    requires forall i :: 0 <= i < |xs| ==> ys[i] == Eval(c, xs[i]) % 251
    ensures Same(WeightSum(xs, ys, n, normalised), Sample(c, xs, Weights251(xs, normalised), n))
  {
    if n == 0 {
      SameReflexive(0);
    } else {
      WeightSumIsSample(c, xs, ys, n - 1, normalised);
      var e, w := Eval(c, xs[n - 1]), Weight(xs, n - 1, normalised);
      assert ys[n - 1] == e % 251 && Weights251(xs, normalised)[n - 1] == w;
      ModSame(e);
      SameReflexive(w);
      SameProduct(e % 251, e, w, w);
      SameSum(WeightSum(xs, ys, n - 1, normalised), Sample(c, xs, Weights251(xs, normalised), n - 1),
              (e % 251) * w, e * w);
    }
  }

  // A node's weight is right when its denominator is inverted, or when nothing depends on it.
  ghost predicate Inverted(xs: seq<int>, i: nat, normalised: bool)
    requires i < |xs|
  {
    (Den(xs, i) * DenInverse(xs, i, normalised)) % 251 == 1 || Num(xs, i) % 251 == 0
  }

  lemma WeightsRight(xs: seq<int>, normalised: bool)
    requires forall i :: 0 <= i < |xs| ==> Inverted(xs, i, normalised)
    ensures Weights(xs, Weights251(xs, normalised), 251)
  {
    var w := Weights251(xs, normalised);
    forall i | 0 <= i < |xs|
      ensures Divides(251, Den(xs, i) * w[i] - Num(xs, i))
    {
      assert Inverted(xs, i, normalised);
      WeightRight(Num(xs, i), Den(xs, i), DenInverse(xs, i, normalised));
    }
  }

  lemma WeightRight(n: int, d: int, v: int)
    ensures (d * v) % 251 == 1 || n % 251 == 0 <==> Divides(251, d * (n * v) - n)
  {
    assert d * (n * v) - n == n * (d * v - 1) by {
      assert d * (n * v) == n * (d * v);
    }
    if (d * v) % 251 == 1 {
      SameResidue(d * v, 1);
      DividesCombination(251, n, d * v - 1, 0, d * v - 1);
    } else if n % 251 == 0 {
      DividesModulo(251, n);
      DividesCombination(251, d * v - 1, n, 0, n);
    } else if Divides(251, n * (d * v - 1)) {
      FieldRegular(n);
      assert Divides(251, d * v - 1);
      SameResidue(d * v, 1);
    }
  }

  lemma InterpolateBytes(c: seq<int>, xs: seq<int>, ys: seq<int>, normalised: bool)
    requires |c| == |xs| == |ys| && |c| > 0 && Distinct(xs)
    requires forall i :: 0 <= i < |xs| ==> ys[i] == Eval(c, xs[i]) % 251
    requires forall i :: 0 <= i < |xs| ==> Inverted(xs, i, normalised)
    ensures CombineByte(xs, ys, normalised) == c[0] % 251
  {
    DistinctSeparated(xs);
    WeightsRight(xs, normalised);
    var w := Weights251(xs, normalised);
    Interpolate(c, xs, w, 251);
    WeightSumIsSample(c, xs, ys, |xs|, normalised);
    var s, t := WeightSum(xs, ys, |xs|, normalised), Sample(c, xs, w, |xs|);
    SameTransitive(s, t, Eval(c, 0));
    SameResidue(s, Eval(c, 0));
    assert Eval(c, 0) == c[0] + 0 * Eval(c[1..], 0);
  }

  lemma DenNonzero(xs: seq<int>, i: nat)
    requires i < |xs| && Distinct(xs)
    ensures Den(xs, i) % 251 != 0
  {
    DistinctSeparated(xs);
    SkipProductRegular(xs, i, |xs|, 251);
    if Den(xs, i) % 251 == 0 {
      DividesModulo(251, Den(xs, i) * 1);
      DividesModulo(251, 1);
    }
  }

  lemma SameResidueProduct(x: int, y: int, z: int)
    requires Same(x, y)
    ensures (x * z) % 251 == (y * z) % 251
  {
    SameReflexive(z);
    SameProduct(x, y, z, z);
    SameResidue(x * z, y * z);
  }

  lemma NormalisedInverts(xs: seq<int>, i: nat)
    requires i < |xs| && Distinct(xs)
    ensures Inverted(xs, i, true)
  {
    DenNonzero(xs, i);
    SearchExact(Den(xs, i) % 251);
    ModSame(Den(xs, i));
    SameResidueProduct(Den(xs, i), Den(xs, i) % 251, Search(Den(xs, i) % 251, 1));
  }

  /** Any threshold shares of one split, in any order, with abscissas distinct modulo 251: with
      residues normalised, combining them gives back every secret byte modulo 251, so exactly
      the secrets whose bytes are all below 251 come back unchanged. */
  lemma RoundTrip(secret: seq<byte>, coefficients: seq<seq<byte>>, shares: seq<seq<byte>>, threshold: byte)
    requires |secret| == WIDTH && forall n :: 0 <= n < |coefficients| ==> |coefficients[n]| == WIDTH
    requires threshold == |coefficients| + 1 && threshold <= |shares|
    requires forall i :: 0 <= i < threshold ==> |shares[i]| > WIDTH && shares[i] == Share(secret, coefficients, shares[i][0])
    requires Distinct(Column(shares, threshold, 0))
    ensures CombineShares(shares, threshold, true) == seq(WIDTH, j requires 0 <= j < WIDTH => secret[j] % 251)
    ensures CombineShares(shares, threshold, true) == secret <==> forall j :: 0 <= j < WIDTH ==> secret[j] <= 250
  {
    hide Share, Distinct, CombineByte;
    forall j | 0 <= j < WIDTH
      ensures CombineShares(shares, threshold, true)[j] == secret[j] % 251
    {
      RoundTripByte(secret, coefficients, shares, threshold, j);
    }
    assert forall j :: 0 <= j < WIDTH ==> (secret[j] % 251 == secret[j] <==> secret[j] <= 250);
  }

  lemma RoundTripByte(secret: seq<byte>, coefficients: seq<seq<byte>>, shares: seq<seq<byte>>, threshold: byte, j: nat)
    requires |secret| == WIDTH && forall n :: 0 <= n < |coefficients| ==> |coefficients[n]| == WIDTH
    requires threshold == |coefficients| + 1 && threshold <= |shares| && j < WIDTH
    requires forall i :: 0 <= i < threshold ==> |shares[i]| > WIDTH && shares[i] == Share(secret, coefficients, shares[i][0])
    requires Distinct(Column(shares, threshold, 0))
    ensures CombineByte(Column(shares, threshold, 0), Column(shares, threshold, 1 + j), true) == secret[j] % 251
  {
    var xs := Column(shares, threshold, 0);
    forall i | 0 <= i < |xs| ensures Inverted(xs, i, true) { NormalisedInverts(xs, i); }
    var ys := Column(shares, threshold, 1 + j);
    var c := Polynomial(secret, coefficients, j);
    forall i | 0 <= i < |xs|
      ensures ys[i] == Eval(c, xs[i]) % 251
    {
      assert shares[i][1 + j] == Share(secret, coefficients, shares[i][0])[1 + j];
    }
    InterpolateBytes(c, xs, ys, true);
  }

  function Picked(shares: seq<seq<byte>>, picks: seq<nat>): (p: seq<seq<byte>>)
    requires forall k :: 0 <= k < |picks| ==> picks[k] < |shares|
    ensures |p| == |picks| && forall k :: 0 <= k < |picks| ==> p[k] == shares[picks[k]]
  {
    seq(|picks|, k requires 0 <= k < |picks| => shares[picks[k]])
  }

  /** The same for shares picked from the list that split returns, at points distinct modulo 251. */
  lemma RoundTripOfSplit(secret: seq<byte>, coefficients: seq<seq<byte>>, shares: seq<seq<byte>>, picks: seq<nat>)
    requires |secret| == WIDTH && forall n :: 0 <= n < |coefficients| ==> |coefficients[n]| == WIDTH
    requires |shares| < 256 && |coefficients| + 1 == |picks| < 256
    requires forall i :: 0 <= i < |shares| ==> |shares[i]| > WIDTH && shares[i] == Share(secret, coefficients, i + 1)
    requires forall k :: 0 <= k < |picks| ==> picks[k] < |shares|
    requires forall k, l :: 0 <= k < l < |picks| ==> picks[k] % 251 != picks[l] % 251
    ensures
      CombineShares(Picked(shares, picks), |picks|, true) == seq(WIDTH, j requires 0 <= j < WIDTH => secret[j] % 251)
  {
    var picked := Picked(shares, picks);
    forall k | 0 <= k < |picks|
      ensures picked[k][0] == picks[k] + 1
    {
      assert picked[k] == Share(secret, coefficients, picks[k] + 1);
    }
    RoundTrip(secret, coefficients, picked, |picks|);
  }

  // ----- The search as written -----

  ghost predicate SearchSucceeds(xs: seq<int>) {
    forall i :: 0 <= i < |xs| ==> Rem(Den(xs, i)) > 0 || Rem(Den(xs, i)) == -250 || Num(xs, i) % 251 == 0
  }

  function Values(c: seq<int>, xs: seq<int>): (ys: seq<int>)
    ensures |ys| == |xs|
  {
    seq(|xs|, i requires 0 <= i < |xs| => Eval(c, xs[i]) % 251)
  }

  ghost predicate RecoversAsWritten(xs: seq<int>, c: seq<int>)
    requires |c| > 0
  {
    CombineByte(xs, Values(c, xs), false) == c[0] % 251
  }

  ghost predicate BytePolynomial(c: seq<int>, n: nat) {
    |c| == n && forall i :: 0 <= i < |c| ==> 0 <= c[i] < 256
  }

  lemma InvertedAsWritten(xs: seq<int>, i: nat)
    requires i < |xs| && Distinct(xs)
    ensures Inverted(xs, i, false) <==>
      Rem(Den(xs, i)) > 0 || Rem(Den(xs, i)) == -250 || Num(xs, i) % 251 == 0
    ensures Rem(Den(xs, i)) <= 0 ==> DenInverse(xs, i, false) == 1
  {
    DenNonzero(xs, i);
    var d := Den(xs, i);
    RemSame(d);
    SameResidue(Rem(d), d);
    SearchExact(Rem(d));
    SameResidueProduct(d, Rem(d), Search(Rem(d), 1));
  }

  // Reducing the coefficients changes no value modulo 251.
  function Reduced(c: seq<int>): (r: seq<int>)
    ensures |r| == |c|
  {
    seq(|c|, i requires 0 <= i < |c| => c[i] % 251)
  }

  lemma {:induction false} EvalReduced(c: seq<int>, x: int)
    ensures Same(Eval(Reduced(c), x), Eval(c, x))
  {
    if c == [] {
      SameReflexive(0);
    } else {
      EvalReduced(c[1..], x);
      var p, q := Eval(Reduced(c[1..]), x), Eval(c[1..], x);
      assert Reduced(c)[1..] == Reduced(c[1..]);
      ModSame(c[0]);
      SameReflexive(x);
      SameProduct(x, x, p, q);
      SameSum(c[0] % 251, c[0], x * p, x * q);
    }
  }

  // The basis polynomial of a node whose weight is wrong is not recovered.
  lemma MissedBasis(xs: seq<int>, i: nat) returns (c: seq<int>)
    requires i < |xs| && Distinct(xs) && !Inverted(xs, i, false)
    ensures BytePolynomial(c, |xs|) && !RecoversAsWritten(xs, c)
  {
    var b := Basis(xs, i, |xs|);
    c := Reduced(b);
    var ys, w := Values(c, xs), Weights251(xs, false);
    forall k | 0 <= k < |xs|
      ensures ys[k] == Eval(b, xs[k]) % 251
    {
      EvalReduced(b, xs[k]);
      SameResidue(Eval(c, xs[k]), Eval(b, xs[k]));
    }
    WeightSumIsSample(b, xs, ys, |xs|, false);
    SampleBasis(xs, i, w, |xs|);
    EvalBasis(xs, i, |xs|, 0);
    assert Eval(b, 0) == b[0] + 0 * Eval(b[1..], 0);
    WrongWeight(WeightSum(xs, ys, |xs|, false), Num(xs, i), Den(xs, i), DenInverse(xs, i, false));
  }

  lemma WrongWeight(s: int, n: int, d: int, v: int)
    requires Same(s, d * (n * v)) && (d * v) % 251 != 1 && n % 251 != 0
    ensures s % 251 != (n % 251) % 251
  {
    if s % 251 == n % 251 {
      SameResidue(s, n);
      SameSymmetric(s, d * (n * v));
      SameTransitive(d * (n * v), s, n);
      WeightRight(n, d, v);
    }
  }

  /** As written, combining recovers the secret byte of every polynomial from the nodes xs if and
      only if no needed denominator is negative after truncated reduction, -250 excepted. */
  lemma AsWrittenExact(xs: seq<int>)
    requires |xs| > 0 && Distinct(xs)
    ensures (forall c | BytePolynomial(c, |xs|) :: RecoversAsWritten(xs, c)) <==> SearchSucceeds(xs)
  {
    if SearchSucceeds(xs) {
      forall c | BytePolynomial(c, |xs|)
        ensures RecoversAsWritten(xs, c)
      {
        forall i | 0 <= i < |xs| ensures Inverted(xs, i, false) { InvertedAsWritten(xs, i); }
        InterpolateBytes(c, xs, Values(c, xs), false);
      }
    } else {
      var i :| 0 <= i < |xs| && !(Rem(Den(xs, i)) > 0 || Rem(Den(xs, i)) == -250 || Num(xs, i) % 251 == 0);
      InvertedAsWritten(xs, i);
      var c := MissedBasis(xs, i);
    }
  }

  // ----- How often the search misses -----

  // The index of a largest element among the first n, index skip left out.
  lemma {:induction false} MaxIndex(xs: seq<int>, skip: int, n: nat) returns (m: nat)
    requires 0 < n <= |xs| && (skip == 0 ==> n > 1)
    ensures m < n && m != skip && forall k :: 0 <= k < n && k != skip ==> xs[k] <= xs[m]
  {
    if n == 1 || (n == 2 && skip == 0) {
      m := n - 1;
    } else {
      m := MaxIndex(xs, skip, n - 1);
      if n - 1 != skip && xs[n - 1] > xs[m] {
        m := n - 1;
      }
    }
  }

  lemma {:induction false} OneLarger(xs: seq<int>, i: nat, big: nat, n: nat)
    requires i < |xs| && big < |xs| && n <= |xs| && xs[i] < xs[big]
    requires forall k :: 0 <= k < |xs| && k != i && k != big ==> xs[k] < xs[i]
    ensures if big < n then SkipProduct(xs, i, n, xs[i]) < 0 else SkipProduct(xs, i, n, xs[i]) > 0
  {
    if n != 0 {
      OneLarger(xs, i, big, n - 1);
      if n - 1 != i {
        ProductSign(SkipProduct(xs, i, n - 1, xs[i]), xs[i] - xs[n - 1]);
      }
    }
  }

  lemma ProductSign(p: int, f: int)
    ensures p > 0 && f > 0 ==> p * f > 0
    ensures (p > 0 && f < 0) || (p < 0 && f > 0) ==> p * f < 0
  {
    if p > 0 && f > 0 {
      assert p * f > 0;
    } else if p > 0 && f < 0 {
      assert p * -f > 0;
    } else if p < 0 && f > 0 {
      assert -p * f > 0;
    }
  }

  /** The node with the second largest abscissa always has a negative denominator, so at
      thresholds of 2 and more the search as written finds nothing for some node of every
      combination and leaves 1, which is right only for -250. */
  lemma SomeWeightMissed(xs: seq<int>)
    requires |xs| >= 2 && Distinct(xs)
    ensures exists i :: 0 <= i < |xs| && Rem(Den(xs, i)) < 0 && DenInverse(xs, i, false) == 1
  {
    var i := SecondLargest(xs);
    NegativeRem(Den(xs, i));
    InvertedAsWritten(xs, i);
  }

  lemma NegativeRem(d: int)
    requires d < 0 && d % 251 != 0
    ensures Rem(d) < 0
  {
    RemResidue(d);
  }

  lemma SecondLargest(xs: seq<int>) returns (i: nat)
    requires |xs| >= 2 && Distinct(xs)
    ensures i < |xs| && Den(xs, i) < 0 && Den(xs, i) % 251 != 0
  {
    var big := MaxIndex(xs, -1, |xs|);
    i := MaxIndex(xs, big, |xs|);
    DistinctUnequal(xs);
    OneLarger(xs, i, big, |xs|);
    DenNonzero(xs, i);
  }

  lemma DistinctUnequal(xs: seq<int>)
    requires Distinct(xs)
    ensures forall j, k :: 0 <= j < |xs| && 0 <= k < |xs| && j != k ==> xs[j] != xs[k]
  {
    forall j, k | 0 <= j < k < |xs|
      ensures xs[j] != xs[k]
    {
      assert (xs[j] - xs[k]) % 251 != 0;
    }
  }

  /** The source's own test combines the shares at 1, 2, 3, where the search misses; at 1, 11, 36
      its only negative denominator happens to be -250. */
  lemma SearchExamples()
    ensures !SearchSucceeds([1, 2, 3])
    ensures SearchSucceeds([1, 11, 36])
  {
    var a := [1, 2, 3];
    assert SkipProduct(a, 1, 1, 2) == 1 && SkipProduct(a, 1, 2, 2) == 1;
    assert Den(a, 1) == -1;
    assert SkipProduct(a, 1, 1, 0) == -1 && SkipProduct(a, 1, 2, 0) == -1;
    assert Num(a, 1) == 3;
    assert Rem(Den(a, 1)) == -1;
    var b := [1, 11, 36];
    assert SkipProduct(b, 0, 1, 1) == 1 && SkipProduct(b, 0, 2, 1) == -10;
    assert Den(b, 0) == 350;
    assert SkipProduct(b, 1, 1, 11) == 10 && SkipProduct(b, 1, 2, 11) == 10;
    assert Den(b, 1) == -250;
    assert SkipProduct(b, 2, 1, 36) == 35 && SkipProduct(b, 2, 2, 36) == 35 * 25;
    assert Den(b, 2) == 875;
  }

  // ----- The repository's own test: threshold 3, combining the first three shares -----

  lemma InverseOfTwo()
    ensures Search(2, 1) == 126
  {
    SearchFinds(2, 1, 126);
    hide Search;
    RemOfProduct(2, Search(2, 1));
  }

  lemma FirstThreeWeights()
    ensures Weight([1, 2, 3], 0, false) == 6 * 126
    ensures Weight([1, 2, 3], 1, false) == 3
    ensures Weight([1, 2, 3], 2, false) == 2 * 126
  {
    var xs := [1, 2, 3];
    InverseOfTwo();
    SearchMisses(-1, 1);
    hide Search;
    assert SkipProduct(xs, 0, 1, 1) == 1 && SkipProduct(xs, 0, 2, 1) == -1 && Den(xs, 0) == 2;
    assert SkipProduct(xs, 0, 1, 0) == 1 && SkipProduct(xs, 0, 2, 0) == -2 && Num(xs, 0) == 6;
    assert SkipProduct(xs, 1, 1, 2) == 1 && SkipProduct(xs, 1, 2, 2) == 1 && Den(xs, 1) == -1;
    assert SkipProduct(xs, 1, 1, 0) == -1 && SkipProduct(xs, 1, 2, 0) == -1 && Num(xs, 1) == 3;
    assert SkipProduct(xs, 2, 1, 3) == 2 && SkipProduct(xs, 2, 2, 3) == 2 && Den(xs, 2) == 2;
    assert SkipProduct(xs, 2, 1, 0) == -1 && SkipProduct(xs, 2, 2, 0) == 2 && Num(xs, 2) == 2;
  }

  lemma EvalThree(s: int, a: int, b: int, x: int)
    ensures Eval([s, a, b], x) == s + x * (a + x * b)
  {
    assert [s, a, b][1..] == [a, b] && [a, b][1..] == [b] && [b][1..] == [];
    assert Eval([b], x) == b;
    assert Eval([a, b], x) == a + x * b;
  }

  lemma FirstThreeSum(s: int, a: int, b: int, y1: int, y2: int, y3: int)
    requires y1 == (s + a + b) % 251 && y2 == (s + 2 * a + 4 * b) % 251 && y3 == (s + 3 * a + 9 * b) % 251
    ensures (y1 * (6 * 126) + y2 * 3 + y3 * (2 * 126)) % 251 == Mixed(s, y2)
  {
    var p, q, r := (s + a + b) / 251, (s + 2 * a + 4 * b) / 251, (s + 3 * a + 9 * b) / 251;
    var x, y := y1 * (6 * 126) + y2 * 3 + y3 * (2 * 126), s + 6 * y2;
    assert x - y == 251 * (4 * s + 6 * a + 12 * b - 756 * p + 3 * q - 252 * r);
    MultipleOf251(y, 4 * s + 6 * a + 12 * b - 756 * p + 3 * q - 252 * r);
  }

  lemma MultipleOf251(y: int, k: int)
    ensures (y + 251 * k) % 251 == y % 251
  {
  }

  // A secret byte s and the byte y of the second share, as combine mixes them.
  function Mixed(s: int, y: int): int {
    (s + 6 * y) % 251
  }

  lemma FirstThreeByte(s: int, a: int, b: int, ys: seq<int>)
    requires |ys| == 3 && forall i :: 0 <= i < 3 ==> ys[i] == Eval([s, a, b], i + 1) % 251
    ensures CombineByte([1, 2, 3], ys, false) == Mixed(s, ys[1])
  {
    FirstThreeWeights();
    hide Weight;
    var xs, c := [1, 2, 3], [s, a, b];
    EvalThree(s, a, b, 1);
    EvalThree(s, a, b, 2);
    EvalThree(s, a, b, 3);
    hide Eval;
    FirstThreeSum(s, a, b, ys[0], ys[1], ys[2]);
    assert WeightSum(xs, ys, 1, false) == ys[0] * (6 * 126);
    assert WeightSum(xs, ys, 2, false) == ys[0] * (6 * 126) + ys[1] * 3;
    assert WeightSum(xs, ys, 3, false) == ys[0] * (6 * 126) + ys[1] * 3 + ys[2] * (2 * 126);
  }

  function FirstThree(secret: seq<byte>, coefficients: seq<seq<byte>>): (shares: seq<seq<byte>>)
    requires |secret| == WIDTH && |coefficients| == 2 && |coefficients[0]| == |coefficients[1]| == WIDTH
    ensures |shares| == 3 && forall i :: 0 <= i < 3 ==> |shares[i]| == WIDTH + 1 && shares[i] == Share(secret, coefficients, i + 1)
  {
    [Share(secret, coefficients, 1), Share(secret, coefficients, 2), Share(secret, coefficients, 3)]
  }

  /** As written, the first three shares of a split with threshold 3 combine to the secret plus six
      times the second share, so to the secret if and only if its bytes are at most 250 and the
      second share is all zeros. */
  lemma FirstThreeExact(secret: seq<byte>, coefficients: seq<seq<byte>>)
    requires |secret| == WIDTH && |coefficients| == 2 && |coefficients[0]| == |coefficients[1]| == WIDTH
    ensures var shares := FirstThree(secret, coefficients);
      && (forall j :: 0 <= j < WIDTH ==> CombineShares(shares, 3, false)[j] == Mixed(secret[j], shares[1][1 + j]))
      && (CombineShares(shares, 3, false) == secret <==>
          forall j :: 0 <= j < WIDTH ==> secret[j] <= 250 && shares[1][1 + j] == 0)
  {
    var shares := FirstThree(secret, coefficients);
    var r := CombineShares(shares, 3, false);
    forall j | 0 <= j < WIDTH
      ensures r[j] == Mixed(secret[j], shares[1][1 + j])
      ensures r[j] == secret[j] <==> secret[j] <= 250 && shares[1][1 + j] == 0
    {
      FirstThreeColumn(secret, coefficients, j);
      SixTimes(secret[j], shares[1][1 + j]);
    }
  }

  lemma FirstThreeColumn(secret: seq<byte>, coefficients: seq<seq<byte>>, j: nat)
    requires |secret| == WIDTH && |coefficients| == 2 && |coefficients[0]| == |coefficients[1]| == WIDTH && j < WIDTH
    ensures var shares := FirstThree(secret, coefficients);
      && CombineByte(Column(shares, 3, 0), Column(shares, 3, 1 + j), false) == Mixed(secret[j], shares[1][1 + j])
      && shares[1][1 + j] <= 250
  {
    var shares := FirstThree(secret, coefficients);
    var ys := Column(shares, 3, 1 + j);
    assert Column(shares, 3, 0) == [1, 2, 3];
    assert Polynomial(secret, coefficients, j) == [secret[j], coefficients[0][j], coefficients[1][j]];
    FirstThreeByte(secret[j], coefficients[0][j], coefficients[1][j], ys);
  }

  lemma SixTimes(s: byte, y: byte)
    requires y <= 250
    ensures Mixed(s, y) == s <==> s <= 250 && y == 0
  {
  }

  /** The test's secret, 32 times 42, with coefficients of zero comes back as 32 times 43. */
  lemma OwnTestFails(secret: seq<byte>, coefficients: seq<seq<byte>>)
    requires |secret| == WIDTH && |coefficients| == 2 && |coefficients[0]| == |coefficients[1]| == WIDTH
    requires forall j :: 0 <= j < WIDTH ==> secret[j] == 42 && coefficients[0][j] == 0 && coefficients[1][j] == 0
    ensures var r := CombineShares(FirstThree(secret, coefficients), 3, false);
      r != secret && forall j :: 0 <= j < WIDTH ==> r[j] == 43
  {
    hide CombineShares, Share;
    var shares := FirstThree(secret, coefficients);
    FirstThreeExact(secret, coefficients);
    var r := CombineShares(shares, 3, false);
    forall j | 0 <= j < WIDTH
      ensures r[j] == 43
    {
      ConstantShare(secret, coefficients, j);
      assert r[j] == Mixed(secret[j], shares[1][1 + j]);
    }
    assert r[0] != secret[0];
  }

  lemma ConstantShare(secret: seq<byte>, coefficients: seq<seq<byte>>, j: nat)
    requires |secret| == WIDTH && |coefficients| == 2 && |coefficients[0]| == |coefficients[1]| == WIDTH && j < WIDTH
    requires secret[j] == 42 && coefficients[0][j] == 0 && coefficients[1][j] == 0
    ensures Share(secret, coefficients, 2)[1 + j] == 42
  {
    assert Polynomial(secret, coefficients, j) == [42, 0, 0];
    EvalThree(42, 0, 0, 2);
  }
}
