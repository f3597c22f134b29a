/**
  The secrecy half of threshold sharing (crates/crypto-pqc/src/secret_sharing.rs): fewer shares than
  the threshold fit every secret, unless one of them was dealt at a multiple of 251.
 */
module Secrecy {
  import opened Bytes
  import opened Interpolation
  import opened SecretSharing

  // ----- Some polynomial has given values at distinct points -----

  lemma {:induction false} ZerosVanish(n: nat, x: int)
    ensures Eval(seq(n, _ => 0), x) == 0
  {
    if n != 0 {
      assert seq(n, _ => 0)[1..] == seq(n - 1, _ => 0);
      ZerosVanish(n - 1, x);
    }
  }

  // A value of the basis polynomial, scaled so that it is y at node i.
  lemma Scaled251(xs: seq<int>, i: nat, y: int) returns (w: int)
    requires i < |xs| && Distinct(xs)
    ensures Same(w * Den(xs, i), y)
  {
    hide Den, Distinct;
    var d := Den(xs, i);
    DenNonzero(xs, i);
    var e := InverseExists(d % 251);
    w := y * e;
    ModSame(d);
    SameReflexive(e);
    SameReflexive(y);
    SameProduct(d, d % 251, e, e);
    SameTransitive(d * e, (d % 251) * e, 1);
    SameProduct(y, y, d * e, 1);
    assert (y * e) * d == y * (d * e);
  }

  lemma {:induction false} Interpolant(xs: seq<int>, ys: seq<int>, n: nat) returns (c: seq<int>)
    requires Distinct(xs) && |ys| == |xs| && n <= |xs|
    ensures |c| == |xs|
    ensures forall j :: 0 <= j < |xs| ==> Same(Eval(c, xs[j]), if j < n then ys[j] else 0)
  {
    if n == 0 {
      c := seq(|xs|, _ => 0);
      forall j | 0 <= j < |xs|
        ensures Same(Eval(c, xs[j]), 0)
      {
        ZerosVanish(|xs|, xs[j]);
        SameReflexive(0);
      }
    } else {
      var i := n - 1;
      var p := Interpolant(xs, ys, i);
      var b := Basis(xs, i, |xs|);
      var w := Scaled251(xs, i, ys[i]);
      c := Combination(1, p, w, b);
      forall j | 0 <= j < |xs|
        ensures Same(Eval(c, xs[j]), if j < n then ys[j] else 0)
      {
        EvalCombination(1, p, w, b, xs[j]);
        EvalBasis(xs, i, |xs|, xs[j]);
        if j == i {
          SameSum(Eval(p, xs[i]), 0, w * Den(xs, i), ys[i]);
        } else {
          SkipProductRoot(xs, i, |xs|, j);
          assert w * 0 == 0;
        }
      }
    }
  }

  // ----- What shares below the threshold say -----

  ghost predicate Residues(ys: seq<int>) {
    forall i :: 0 <= i < |ys| ==> 0 <= ys[i] < 251
  }

  // A polynomial with one coefficient more than there are points, this secret and these values.
  ghost predicate Fits(c: seq<int>, secret: int, xs: seq<int>, ys: seq<int>)
    requires |xs| == |ys|
  {
    BytePolynomial(c, |xs| + 1) && c[0] == secret && forall i :: 0 <= i < |xs| ==> Eval(c, xs[i]) % 251 == ys[i]
  }

  ghost predicate NoZeros(xs: seq<int>) {
    forall i :: 0 <= i < |xs| ==> xs[i] % 251 != 0
  }

  lemma WithZero(xs: seq<int>)
    requires Distinct(xs) && NoZeros(xs)
    ensures Distinct([0] + xs)
  {
    var nodes := [0] + xs;
    forall i, j | 0 <= i < j < |nodes|
      ensures (nodes[i] - nodes[j]) % 251 != 0
    {
      if i == 0 {
        Negated(xs[j - 1]);
      } else {
        assert nodes[i] == xs[i - 1] && nodes[j] == xs[j - 1];
      }
    }
  }

  lemma Negated(x: int)
    ensures (0 - x) % 251 == 0 <==> x % 251 == 0
  {
  }

  lemma SwapConstant(r: seq<int>, secret: int, x: int)
    requires r != [] && Same(r[0], secret)
    ensures Same(Eval([secret] + r[1..], x), Eval(r, x))
  {
    var t := x * Eval(r[1..], x);
    assert ([secret] + r[1..])[1..] == r[1..];
    SameSymmetric(r[0], secret);
    SameReflexive(t);
    SameSum(secret, r[0], t, t);
  }

  lemma AnySecretFits(secret: byte, xs: seq<int>, ys: seq<int>) returns (c: seq<int>)
    requires Distinct(xs) && NoZeros(xs) && |ys| == |xs| && Residues(ys)
    ensures Fits(c, secret, xs, ys)
  {
    hide Distinct, Eval;
    var nodes, values := [0] + xs, [secret] + ys;
    WithZero(xs);
    var p := Interpolant(nodes, values, |nodes|);
    var r := Reduced(p);
    c := [secret] + r[1..];
    assert Same(Eval(p, nodes[0]), values[0]);
    ConstantTerm(p, secret);
    forall i | 0 <= i < |xs|
      ensures Eval(c, xs[i]) % 251 == ys[i]
    {
      assert nodes[i + 1] == xs[i] && values[i + 1] == ys[i];
      assert Same(Eval(p, nodes[i + 1]), values[i + 1]);
      EvalReduced(p, xs[i]);
      SwapConstant(r, secret, xs[i]);
      SameTransitive(Eval(c, xs[i]), Eval(r, xs[i]), Eval(p, xs[i]));
      SameTransitive(Eval(c, xs[i]), Eval(p, xs[i]), ys[i]);
      SameResidue(Eval(c, xs[i]), ys[i]);
    }
  }

  lemma ConstantTerm(p: seq<int>, secret: int)
    requires p != [] && Same(Eval(p, 0), secret)
    ensures Same(Reduced(p)[0], secret)
  {
    assert Eval(p, 0) == p[0] + 0 * Eval(p[1..], 0);
    ModSame(p[0]);
    SameTransitive(p[0] % 251, p[0], secret);
  }

  lemma AtZero(c: seq<int>, x: int)
    requires c != [] && x % 251 == 0
    ensures Eval(c, x) % 251 == c[0] % 251
  {
    var t := Eval(c[1..], x);
    DividesModulo(251, x);
    DividesCombination(251, t, x, 0, x);
    assert Eval(c, x) - c[0] == t * x + 0 * x;
    SameResidue(Eval(c, x), c[0]);
  }

  ghost predicate Possible(secret: byte, xs: seq<int>, ys: seq<int>)
    requires |xs| == |ys|
  {
    exists c :: Fits(c, secret, xs, ys)
  }

  // Whatever the values at these points, they fit every secret byte.
  ghost predicate Hides(xs: seq<int>) {
    forall secret: byte, ys | |ys| == |xs| && Residues(ys) :: Possible(secret, xs, ys)
  }

  /** Shares at distinct points, one fewer than the threshold, fit every secret whatever their values
      if and only if none of the points is a multiple of 251. */
  lemma SecrecyExact(xs: seq<int>)
    requires Distinct(xs)
    ensures Hides(xs) <==> NoZeros(xs)
  {
    if NoZeros(xs) {
      forall secret: byte, ys | |ys| == |xs| && Residues(ys)
        ensures Possible(secret, xs, ys)
      {
        var c := AnySecretFits(secret, xs, ys);
      }
    } else {
      var i :| 0 <= i < |xs| && xs[i] % 251 == 0;
      var ys := seq(|xs|, _ => 0);
      var secret: byte := 1;
      assert Residues(ys);
      if Possible(secret, xs, ys) {
        var c :| Fits(c, secret, xs, ys);
        AtZero(c, xs[i]);
      }
    }
  }

  // ----- Whole shares -----

  /** The share dealt at 251, which split deals when the total is 251 or more, is the secret. */
  lemma ShareAtModulus(secret: seq<byte>, coefficients: seq<seq<byte>>, j: nat)
    requires |secret| == WIDTH && (forall n :: 0 <= n < |coefficients| ==> |coefficients[n]| == WIDTH) && j < WIDTH
    ensures Share(secret, coefficients, 251)[1 + j] == secret[j] % 251
  {
    AtZero(Polynomial(secret, coefficients, j), 251);
  }

  // Coefficients that give the first k bytes of another secret the same shares.
  ghost predicate Cover(other: seq<byte>, secret: seq<byte>, coefficients: seq<seq<byte>>, points: seq<byte>,
                        cs: seq<seq<int>>, k: nat)
    requires |other| == |secret| == WIDTH && |points| == |coefficients|
    requires forall n :: 0 <= n < |coefficients| ==> |coefficients[n]| == WIDTH
  {
    k <= WIDTH && |cs| == k && forall j :: 0 <= j < k ==> Fits(cs[j], other[j], points, ShareBytes(secret, coefficients, points, j))
  }

  function ShareBytes(secret: seq<byte>, coefficients: seq<seq<byte>>, points: seq<byte>, j: nat): (ys: seq<int>)
    requires |secret| == WIDTH && (forall n :: 0 <= n < |coefficients| ==> |coefficients[n]| == WIDTH) && j < WIDTH
    ensures |ys| == |points|
  {
    seq(|points|, i requires 0 <= i < |points| => Share(secret, coefficients, points[i])[1 + j])
  }

  lemma {:induction false} CoverExists(other: seq<byte>, secret: seq<byte>, coefficients: seq<seq<byte>>, points: seq<byte>, k: nat)
    returns (cs: seq<seq<int>>)
    requires |other| == |secret| == WIDTH && |points| == |coefficients| && k <= WIDTH
    requires forall n :: 0 <= n < |coefficients| ==> |coefficients[n]| == WIDTH
    requires Distinct(points) && NoZeros(points)
    ensures Cover(other, secret, coefficients, points, cs, k)
  {
    if k == 0 {
      cs := [];
    } else {
      cs := CoverExists(other, secret, coefficients, points, k - 1);
      var ys := ShareBytes(secret, coefficients, points, k - 1);
      assert Residues(ys);
      hide Fits, ShareBytes, Distinct, NoZeros, Residues;
      var c := AnySecretFits(other[k - 1], points, ys);
      cs := cs + [c];
    }
  }

  function Transposed(cs: seq<seq<int>>, n: nat): (coefficients: seq<seq<byte>>)
    requires |cs| == WIDTH && forall j :: 0 <= j < WIDTH ==> |cs[j]| == n + 1
    requires forall j, k :: 0 <= j < WIDTH && 0 <= k <= n ==> 0 <= cs[j][k] < 256
    ensures |coefficients| == n && forall m :: 0 <= m < n ==> |coefficients[m]| == WIDTH
    ensures forall m, j :: 0 <= m < n && 0 <= j < WIDTH ==> coefficients[m][j] == cs[j][m + 1]
  {
    seq(n, m requires 0 <= m < n =>
      seq(WIDTH, j requires 0 <= j < WIDTH => var c: byte := cs[j][m + 1]; c))
  }

  /** Any shares of a split, one fewer than the threshold and at points distinct and not zero modulo
      251, are also those of every other secret under other coefficients. */
  lemma SharesHide(secret: seq<byte>, coefficients: seq<seq<byte>>, points: seq<byte>, other: seq<byte>)
    returns (coefficients': seq<seq<byte>>)
    requires |other| == |secret| == WIDTH && |points| == |coefficients|
    requires forall n :: 0 <= n < |coefficients| ==> |coefficients[n]| == WIDTH
    requires Distinct(points) && NoZeros(points)
    ensures |coefficients'| == |coefficients| && forall n :: 0 <= n < |coefficients| ==> |coefficients'[n]| == WIDTH
    ensures forall i :: 0 <= i < |points| ==> Share(other, coefficients', points[i]) == Share(secret, coefficients, points[i])
  {
    var cs := CoverExists(other, secret, coefficients, points, WIDTH);
    forall j | 0 <= j < WIDTH
      ensures |cs[j]| == |points| + 1 && forall k :: 0 <= k <= |points| ==> 0 <= cs[j][k] < 256
    {
      assert Fits(cs[j], other[j], points, ShareBytes(secret, coefficients, points, j));
    }
    coefficients' := Transposed(cs, |points|);
    forall i | 0 <= i < |points|
      ensures Share(other, coefficients', points[i]) == Share(secret, coefficients, points[i])
    {
      var s, t := Share(other, coefficients', points[i]), Share(secret, coefficients, points[i]);
      forall k | 0 <= k < WIDTH + 1
        ensures s[k] == t[k]
      {
        if k > 0 {
          var j := k - 1;
          assert Fits(cs[j], other[j], points, ShareBytes(secret, coefficients, points, j));
          assert Polynomial(other, coefficients', j) == cs[j];
        }
      }
    }
  }
}
