/**
  Shamir sharing over the integers for multi-party computation (crates/quantum/src/mpc.rs).
  Floating-point numbers are real numbers here, infinite or undefined (NaN); machine integers are
  unbounded; the random coefficients are a parameter.
 */
module Mpc {
  import opened Interpolation
  import opened Wrappers

  datatype Error = InvalidParticipants | ReconstructionFailed

  datatype Participant = Participant(id: string)

  datatype Share = Share(participantId: string, x: int, y: int)

  function Truncate(r: real): int {
    if r >= 0.0 then r.Floor else -((-r).Floor)
  }

  // ----- Floating-point numbers without rounding; zeros that divide here are never negative -----

  datatype Float = Finite(value: real) | Infinite(positive: bool) | NaN

  const MAX := 0x7FFF_FFFF_FFFF_FFFF
  const MIN := -0x8000_0000_0000_0000

  function Times(a: Float, b: Float): Float {
    match (a, b)
    case (Finite(x), Finite(y)) => Finite(x * y)
    case (Finite(x), Infinite(p)) => if x == 0.0 then NaN else Infinite(p == (x > 0.0))
    case (Infinite(p), Finite(x)) => if x == 0.0 then NaN else Infinite(p == (x > 0.0))
    case (Infinite(p), Infinite(q)) => Infinite(p == q)
    case _ => NaN
  }

  function DividedBy(x: real, y: real): Float {
    if y != 0.0 then Finite(x / y)
    else if x == 0.0 then NaN
    else Infinite(x > 0.0)
  }

  // The source's conversion to an integer: towards zero, saturating, undefined numbers to zero.
  function Cast(f: Float): int {
    match f
    case Finite(r) => Truncate(r)
    case Infinite(p) => if p then MAX else MIN
    case NaN => 0
  }

  /** Truncation drops what is behind the point. */
  lemma TruncateTowardsZero(r: real)
    ensures r >= 0.0 ==> Truncate(r) as real <= r < Truncate(r) as real + 1.0
    ensures r <= 0.0 ==> Truncate(r) as real - 1.0 < r <= Truncate(r) as real
  {
    var n := (-r).Floor;
    assert (-n) as real == -(n as real);
  }

  /** Division by zero is infinite with the sign of the dividend, or undefined. */
  lemma QuotientsSpelledOut(x: real, y: real)
    ensures y != 0.0 ==> DividedBy(x, y).Finite? && DividedBy(x, y).value * y == x
    ensures DividedBy(x, 0.0) == if x > 0.0 then Infinite(true) else if x < 0.0 then Infinite(false) else NaN
  {
  }

  /** Infinities multiply by their signs; zero times infinity is undefined. */
  lemma ProductsSpelledOut(x: real, y: real, p: bool, f: Float)
    ensures Times(Finite(x), Finite(y)) == Finite(x * y)
    ensures Times(Finite(x), Infinite(p)) == if x > 0.0 then Infinite(p) else if x < 0.0 then Infinite(!p) else NaN
    ensures Times(Infinite(p), f) == if f.Infinite? then Infinite(p == f.positive) else Times(f, Infinite(p))
    ensures Times(NaN, f) == Times(f, NaN) == NaN
  {
  }

  lemma CastsSpelledOut(n: int)
    ensures Cast(Infinite(true)) == 9223372036854775807 && Cast(Infinite(false)) == -9223372036854775808 && Cast(NaN) == 0
    ensures n >= 0 ==> Cast(Finite(n as real + 0.5)) == n && Cast(Finite(-(n as real) - 0.5)) == -n
  {
    TruncateTowardsZero(n as real + 0.5);
    TruncateTowardsZero(-(n as real) - 0.5);
    assert -(n as real) == (-n) as real;
  }

  datatype QuantumMPC = QuantumMPC(threshold: nat, participants: seq<Participant>) {

    method EvaluatePolynomial(coefficients: seq<int>, x: int) returns (result: int)
      ensures result == Eval(coefficients, x)
    {
      result := 0;
      var powerOfX := 1;
      for n := 0 to |coefficients|
        invariant powerOfX == Power(x, n)
        invariant result == Eval(coefficients[..n], x)
      {
        EvalSnoc(coefficients[..n], coefficients[n], x);
        assert coefficients[..n + 1] == coefficients[..n] + [coefficients[n]];
        result := result + coefficients[n] * powerOfX;
        powerOfX := powerOfX * x;
      }
      assert coefficients[..|coefficients|] == coefficients;
    }

    method CreateShares(secret: int, coefficients: seq<int>) returns (r: Result<seq<Share>, Error>)
      requires threshold > 0 && |coefficients| == threshold - 1
      ensures r.Success? <==> participants != []
      ensures r.Failure? ==> r.error == InvalidParticipants
      ensures r.Success? ==> |r.value| == |participants|
      ensures r.Success? ==> forall i :: 0 <= i < |participants| ==>
        r.value[i] == Share(participants[i].id, i + 1, Eval([secret] + coefficients, i + 1))
    {
      if participants == [] {
        return Failure(InvalidParticipants);
      }
      var shares: seq<Share> := [];
      for i := 0 to |participants|
        invariant |shares| == i
        invariant forall k :: 0 <= k < i ==>
          shares[k] == Share(participants[k].id, k + 1, Eval([secret] + coefficients, k + 1))
      {
        var x := i + 1;
        var y := EvaluatePolynomial([secret] + coefficients, x);
        shares := shares + [Share(participants[i].id, x, y)];
      }
      return Success(shares);
    }

    method ReconstructSecret(shares: seq<Share>) returns (r: Result<int, Error>)
      ensures r.Success? <==> threshold <= |shares|
      ensures r.Failure? ==> r.error == ReconstructionFailed
      ensures r.Success? ==> r.value == Reconstructed(shares, threshold, threshold)
    {
      if |shares| < threshold {
        return Failure(ReconstructionFailed);
      }
      var secret := 0;
      for i := 0 to threshold
        invariant secret == Reconstructed(shares, threshold, i)
      {
        var li := BasisAtZero(shares, i);
        secret := secret + Cast(Times(Finite(shares[i].y as real), li));
      }
      return Success(secret);
    }

    // The inner loop of the reconstruction.
    method BasisAtZero(shares: seq<Share>, i: nat) returns (li: Float)
      requires i < threshold <= |shares|
      ensures li == LagrangeWeight(Abscissas(shares, threshold), i, threshold)
    {
      hide Times, DividedBy;
      var xi := shares[i].x as real;
      li := Finite(1.0);
      for j := 0 to threshold
        invariant li == LagrangeWeight(Abscissas(shares, threshold), i, j)
      {
        if i != j {
          var xj := shares[j].x as real;
          li := Times(li, DividedBy(0.0 - xj, xi - xj));
        }
      }
    }
  }

  // The weight of node i, as far as the first n nodes determine it.
  function LagrangeWeight(xs: seq<int>, i: nat, n: nat): Float
    requires i < |xs| && n <= |xs|
  {
    if n == 0 then Finite(1.0)
    else if n - 1 == i then LagrangeWeight(xs, i, n - 1)
    else Times(LagrangeWeight(xs, i, n - 1), DividedBy(0.0 - xs[n - 1] as real, xs[i] as real - xs[n - 1] as real))
  }

  ghost predicate IsFraction(l: real, n: int, d: int) {
    d != 0 && l * d as real == n as real
  }

  function Ratio(n: int, d: int): real
    requires d != 0
  {
    n as real / d as real
  }

  function Abscissas(shares: seq<Share>, n: nat): (xs: seq<int>)
    requires n <= |shares|
    ensures |xs| == n
  {
    seq(n, i requires 0 <= i < n => shares[i].x)
  }

  ghost predicate Unequal(xs: seq<int>) {
    forall i, j :: 0 <= i < |xs| && 0 <= j < |xs| && i != j ==> xs[i] != xs[j]
  }

  // What share i contributes: its weighted value, cast to an integer.
  function Term(shares: seq<Share>, threshold: nat, i: nat): int
    requires i < threshold <= |shares|
  {
    Cast(Times(Finite(shares[i].y as real), LagrangeWeight(Abscissas(shares, threshold), i, threshold)))
  }

  // The sum over the first n shares of the terms.
  function Reconstructed(shares: seq<Share>, threshold: nat, n: nat): int
    requires n <= threshold <= |shares|
  {
    if n == 0 then 0
    else Reconstructed(shares, threshold, n - 1) + Term(shares, threshold, n - 1)
  }

  // ----- The weights of the nodes 1..t are signed binomial coefficients -----

  function Factorial(n: nat): (f: int)
    ensures f > 0
  {
    if n == 0 then 1 else n * Factorial(n - 1)
  }

  function Choose(n: nat, k: nat): int {
    if k == 0 then 1 else if n == 0 then 0 else Choose(n - 1, k - 1) + Choose(n - 1, k)
  }

  // (-1)^n
  function Sign(n: nat): int {
    if n % 2 == 0 then 1 else -1
  }

  lemma {:induction false} ChooseNone(n: nat, k: nat)
    requires n < k
    ensures Choose(n, k) == 0
  {
    if n > 0 {
      ChooseNone(n - 1, k - 1);
      ChooseNone(n - 1, k);
    }
  }

  lemma {:induction false} ChooseFactorial(n: nat, k: nat)
    requires k <= n
    ensures Choose(n, k) * (Factorial(k) * Factorial(n - k)) == Factorial(n)
  {
    if k > 0 {
      var f, g := Factorial(k - 1), Factorial(n - k);
      ChooseFactorial(n - 1, k - 1);
      if k == n {
        ChooseNone(n - 1, k);
      } else {
        ChooseFactorial(n - 1, k);
      }
      PascalStep(n, k, Choose(n - 1, k - 1), Choose(n - 1, k), f, g,
                 if k == n then 0 else Factorial(n - k - 1), Factorial(n - 1));
    }
  }

  lemma PascalStep(n: int, k: int, c: int, d: int, f: int, g: int, h: int, m: int)
    requires c * (f * g) == m
    requires if k == n then d == 0 else d * ((k * f) * h) == m && g == (n - k) * h
    ensures (c + d) * ((k * f) * g) == n * m
  {
    assert c * ((k * f) * g) == k * (c * (f * g));
    if k != n {
      assert d * ((k * f) * ((n - k) * h)) == (n - k) * (d * ((k * f) * h));
    }
    assert (c + d) * ((k * f) * g) == c * ((k * f) * g) + d * ((k * f) * g);
    assert k * m + (n - k) * m == n * m;
  }

  function Nodes(t: nat): (xs: seq<int>)
    ensures |xs| == t
  {
    seq(t, i => i + 1)
  }

  function BinomialWeights(t: nat): (w: seq<int>)
    ensures |w| == t
  {
    seq(t, i requires 0 <= i => Sign(i) * Choose(t, i + 1))
  }

  lemma {:induction false} NumFactorial(t: nat, i: nat, n: nat)
    requires i < t && n <= t
    ensures n <= i ==> SkipProduct(Nodes(t), i, n, 0) == Sign(n) * Factorial(n)
    ensures n > i ==> SkipProduct(Nodes(t), i, n, 0) * (i + 1) == Sign(n - 1) * Factorial(n)
  {
    if n != 0 {
      NumFactorial(t, i, n - 1);
      NumStep(SkipProduct(Nodes(t), i, n - 1, 0), i, n, Factorial(n - 1));
    }
  }

  lemma NumStep(p: int, i: int, n: nat, f: int)
    requires i >= 0 && n > 0
    requires n - 1 <= i ==> p == Sign(n - 1) * f
    requires n - 1 > i ==> p * (i + 1) == Sign(n - 2) * f
    ensures n <= i ==> p * (0 - n) == Sign(n) * (n * f)
    ensures n - 1 == i ==> p * (i + 1) == Sign(n - 1) * (n * f)
    ensures n - 1 > i ==> (p * (0 - n)) * (i + 1) == Sign(n - 1) * (n * f)
  {
    if n - 1 == i {
      SwapFactor(n, Sign(n - 1), f);
    } else if n <= i {
      NegateStep(p, 1, n, Sign(n - 1), f);
    } else {
      NegateStep(p, i + 1, n, Sign(n - 2), f);
    }
  }

  lemma SwapFactor(n: int, s: int, f: int)
    ensures (s * f) * n == s * (n * f)
  {
  }

  lemma NegateStep(p: int, k: int, n: int, s: int, f: int)
    requires p * k == s * f
    ensures (p * (0 - n)) * k == (-s) * (n * f)
  {
    assert (p * (0 - n)) * k == -(n * (p * k));
    assert (-s) * (n * f) == -(n * (s * f));
  }

  // The factors of a denominator below i, and then those above it.
  lemma {:induction false} DenBelow(t: nat, i: nat, n: nat)
    requires i < t && n <= i
    ensures SkipProduct(Nodes(t), i, n, i + 1) * Factorial(i - n) == Factorial(i)
  {
    if n != 0 {
      DenBelow(t, i, n - 1);
      Associate(SkipProduct(Nodes(t), i, n - 1, i + 1), i + 1 - n, Factorial(i - n));
    }
  }

  lemma {:induction false} DenFactorial(t: nat, i: nat, n: nat)
    requires i < n <= t
    ensures SkipProduct(Nodes(t), i, n, i + 1) == Sign(n - 1 - i) * (Factorial(i) * Factorial(n - 1 - i))
  {
    var p, k := SkipProduct(Nodes(t), i, n - 1, i + 1), n - 1 - i;
    SkipStep(t, i, n);
    FactorialSteps(k);
    hide Factorial, Sign, SkipProduct;
    if k == 0 {
      DenBelow(t, i, i);
    } else {
      DenFactorial(t, i, n - 1);
      DenStep(Sign(k - 1), Factorial(i), Factorial(k - 1), k);
    }
  }

  lemma SkipStep(t: nat, i: nat, n: nat)
    requires i < n <= t
    ensures var p := SkipProduct(Nodes(t), i, n - 1, i + 1);
      SkipProduct(Nodes(t), i, n, i + 1) == if n - 1 == i then p else p * (0 - (n - 1 - i))
  {
    assert Nodes(t)[n - 1] == n;
    assert i + 1 - n == 0 - (n - 1 - i);
  }

  lemma FactorialSteps(k: nat)
    ensures k == 0 ==> Factorial(k) == 1 && Sign(k) == 1
    ensures k > 0 ==> Factorial(k) == k * Factorial(k - 1) && Sign(k) == -Sign(k - 1)
  {
  }

  lemma Associate(p: int, k: int, f: int)
    ensures (p * k) * f == p * (k * f)
  {
  }

  lemma DenStep(s: int, f: int, g: int, k: int)
    ensures (s * (f * g)) * (0 - k) == (-s) * (f * (k * g))
  {
    assert (s * (f * g)) * (0 - k) == -((s * f) * (g * k));
    assert (-s) * (f * (k * g)) == -((s * f) * (k * g));
  }

  lemma SignProduct(m: nat, n: nat)
    ensures Sign(m) * Sign(n) == Sign(m + n)
  {
  }

  /** The Lagrange weights at zero of the nodes 1..t are (-1)^i * C(t, i + 1), i counted from 0. */
  lemma WeightsAreBinomial(t: nat)
    ensures Weights(Nodes(t), BinomialWeights(t), 0)
    ensures forall i :: 0 <= i < t ==> Den(Nodes(t), i) * BinomialWeights(t)[i] == Num(Nodes(t), i)
  {
    forall i | 0 <= i < t
      ensures Den(Nodes(t), i) * BinomialWeights(t)[i] == Num(Nodes(t), i)
    {
      NumFactorial(t, i, t);
      DenFactorial(t, i, t);
      ChooseFactorial(t, i + 1);
      SignProduct(t - 1 - i, i);
      BinomialStep(Den(Nodes(t), i), Num(Nodes(t), i), Choose(t, i + 1), Sign(i), Sign(t - 1 - i), Sign(t - 1),
                 i + 1, Factorial(i), Factorial(t - 1 - i), Factorial(t));
    }
    forall i | 0 <= i < t
      ensures Divides(0, Den(Nodes(t), i) * BinomialWeights(t)[i] - Num(Nodes(t), i))
    {
      DividesScaled(0, 0);
    }
  }

  lemma BinomialStep(den: int, num: int, c: int, s: int, r: int, q: int, k: int, f: int, g: int, h: int)
    requires den == r * (f * g) && num * k == q * h && c * ((k * f) * g) == h && r * s == q && k > 0
    ensures den * (s * c) == num
  {
    calc {
      (den * (s * c)) * k;
      (r * s) * ((f * g) * c) * k;
      { assert ((f * g) * c) * k == c * ((k * f) * g); }
      (r * s) * (c * ((k * f) * g));
      q * h;
      num * k;
    }
    assert (den * (s * c) - num) * k == 0;
  }

  lemma IntegersSeparated(xs: seq<int>)
    requires Unequal(xs)
    ensures Separated(xs, 0)
  {
    forall i, j | 0 <= i < |xs| && 0 <= j < |xs| && i != j
      ensures Regular(xs[i] - xs[j], 0)
    {
      NonzeroRegular(xs[i] - xs[j]);
    }
  }

  lemma NonzeroRegular(d: int)
    requires d != 0
    ensures Regular(d, 0)
  {
    forall z | Divides(0, d * z)
      ensures Divides(0, z)
    {
      assert d * z == 0 ==> z == 0;
      DividesScaled(0, 0);
    }
  }

  // ----- Reconstruction -----

  // Another of the first n nodes is equal to node i.
  predicate Twin(xs: seq<int>, i: nat, n: nat)
    requires i < |xs| && n <= |xs|
  {
    n > 0 && ((n - 1 != i && xs[n - 1] == xs[i]) || Twin(xs, i, n - 1))
  }

  // Another of the first n nodes is zero.
  predicate OtherZero(xs: seq<int>, i: nat, n: nat)
    requires i < |xs| && n <= |xs|
  {
    n > 0 && ((n - 1 != i && xs[n - 1] == 0) || OtherZero(xs, i, n - 1))
  }

  lemma {:induction false} NoTwins(xs: seq<int>, i: nat, n: nat)
    requires i < |xs| && n <= |xs| && Unequal(xs)
    ensures !Twin(xs, i, n)
  {
    if n != 0 {
      NoTwins(xs, i, n - 1);
    }
  }

  /** The weight of a node unequal to all others is the exact quotient of the Lagrange basis. */
  lemma {:induction false} WeightExact(xs: seq<int>, i: nat, n: nat)
    requires i < |xs| && n <= |xs| && !Twin(xs, i, n)
    ensures SkipProduct(xs, i, n, xs[i]) != 0
    ensures LagrangeWeight(xs, i, n) == Finite(Ratio(SkipProduct(xs, i, n, 0), SkipProduct(xs, i, n, xs[i])))
  {
    hide Ratio;
    if n == 0 {
      RatioUnique(1.0, 1, 1);
    } else {
      WeightExact(xs, i, n - 1);
      if n - 1 != i {
        var l := Ratio(SkipProduct(xs, i, n - 1, 0), SkipProduct(xs, i, n - 1, xs[i]));
        FractionOfRatio(SkipProduct(xs, i, n - 1, 0), SkipProduct(xs, i, n - 1, xs[i]));
        WeightStep(xs, i, n - 1, l);
      }
    }
  }

  lemma WeightStep(xs: seq<int>, i: nat, j: nat, l: real)
    requires i < |xs| && j < |xs| && i != j && xs[i] != xs[j]
    requires LagrangeWeight(xs, i, j) == Finite(l)
    requires IsFraction(l, SkipProduct(xs, i, j, 0), SkipProduct(xs, i, j, xs[i]))
    ensures SkipProduct(xs, i, j + 1, xs[i]) != 0
    ensures LagrangeWeight(xs, i, j + 1) ==
      Finite(Ratio(SkipProduct(xs, i, j + 1, 0), SkipProduct(xs, i, j + 1, xs[i])))
  {
    var q := (0.0 - xs[j] as real) / (xs[i] as real - xs[j] as real);
    assert LagrangeWeight(xs, i, j + 1) == Finite(l * q);
    hide LagrangeWeight, Ratio;
    FractionStep(xs, i, j, l, l * q);
    RatioUnique(l * q, SkipProduct(xs, i, j + 1, 0), SkipProduct(xs, i, j + 1, xs[i]));
  }

  lemma FractionOfRatio(n: int, d: int)
    requires d != 0
    ensures IsFraction(Ratio(n, d), n, d)
  {
  }

  lemma QuotientKind(x: int, y: int)
    ensures var q := DividedBy(0.0 - x as real, y as real - x as real);
      if x == y then (if x == 0 then q.NaN? else q.Infinite?) else q.Finite? && (q.value == 0.0 <==> x == 0)
  {
    if x != y {
      var q := (0.0 - x as real) / (y as real - x as real);
      assert q * (y as real - x as real) == 0.0 - x as real;
    }
  }

  lemma TimesKind(a: Float, b: Float)
    ensures Times(a, b).Finite? <==> a.Finite? && b.Finite?
    ensures a.Finite? && b.Finite? ==> (Times(a, b).value == 0.0 <==> a.value == 0.0 || b.value == 0.0)
    ensures !(a.Finite? && b.Finite?) ==>
      (Times(a, b).NaN? <==> a.NaN? || b.NaN? || a == Finite(0.0) || b == Finite(0.0))
  {
  }

  /** The weight of a node that equals another is infinite, or undefined when another node is zero. */
  lemma {:induction false} WeightKind(xs: seq<int>, i: nat, n: nat)
    requires i < |xs| && n <= |xs|
    ensures var w := LagrangeWeight(xs, i, n);
      && (w.Finite? <==> !Twin(xs, i, n))
      && (w.NaN? <==> Twin(xs, i, n) && OtherZero(xs, i, n))
      && (w.Finite? ==> (w.value == 0.0 <==> OtherZero(xs, i, n)))
  {
    if n > 0 {
      WeightKind(xs, i, n - 1);
      if n - 1 != i {
        var w, q := LagrangeWeight(xs, i, n - 1), DividedBy(0.0 - xs[n - 1] as real, xs[i] as real - xs[n - 1] as real);
        assert LagrangeWeight(xs, i, n) == Times(w, q);
        QuotientKind(xs[n - 1], xs[i]);
        TimesKind(w, q);
        hide LagrangeWeight, Times, DividedBy;
      }
    }
  }

  /** So a share whose abscissa occurs twice contributes nothing or an extreme integer, and nothing
      exactly when its value or another abscissa is zero. */
  lemma TwinTerm(shares: seq<Share>, threshold: nat, i: nat)
    requires i < threshold <= |shares| && Twin(Abscissas(shares, threshold), i, threshold)
    ensures Term(shares, threshold, i) in {0, MAX, MIN}
    ensures Term(shares, threshold, i) == 0 <==> shares[i].y == 0 || OtherZero(Abscissas(shares, threshold), i, threshold)
  {
    var xs := Abscissas(shares, threshold);
    WeightKind(xs, i, threshold);
    TimesKind(Finite(shares[i].y as real), LagrangeWeight(xs, i, threshold));
    hide Times, LagrangeWeight;
  }

  /** Two equal abscissas: the contribution of each is extreme, with the sign opposite to that of
      value times abscissa, unless one of these is zero. */
  lemma TwinSign(shares: seq<Share>)
    requires |shares| == 2 && shares[0].x == shares[1].x
    ensures var x, y := shares[0].x, shares[0].y;
      Term(shares, 2, 0) ==
        if x == 0 || y == 0 then 0 else if (x < 0) == (y > 0) then 9223372036854775807 else -9223372036854775808
  {
    var xs := Abscissas(shares, 2);
    assert LagrangeWeight(xs, 0, 1) == LagrangeWeight(xs, 0, 0) == Finite(1.0);
    assert LagrangeWeight(xs, 0, 2) == Times(Finite(1.0), DividedBy(0.0 - xs[1] as real, 0.0));
  }

  lemma RatioUnique(l: real, n: int, d: int)
    requires IsFraction(l, n, d)
    ensures l == Ratio(n, d)
  {
    CancelReal(l, n as real / d as real, d as real);
  }

  lemma FractionStep(xs: seq<int>, i: nat, j: nat, before: real, after: real)
    requires i < |xs| && j < |xs| && i != j && xs[i] != xs[j]
    requires IsFraction(before, SkipProduct(xs, i, j, 0), SkipProduct(xs, i, j, xs[i]))
    requires after == before * ((0.0 - xs[j] as real) / (xs[i] as real - xs[j] as real))
    ensures IsFraction(after, SkipProduct(xs, i, j + 1, 0), SkipProduct(xs, i, j + 1, xs[i]))
  {
    TimesFraction(before, SkipProduct(xs, i, j, xs[i]), SkipProduct(xs, i, j, 0), xs[i], xs[j]);
  }

  lemma TimesFraction(l: real, d: int, n: int, xi: int, xj: int)
    requires xi != xj && d != 0 && l * d as real == n as real
    ensures (l * ((0.0 - xj as real) / (xi as real - xj as real))) * (d * (xi - xj)) as real == (n * (0 - xj)) as real
    ensures d * (xi - xj) != 0
  {
    var a, b := 0.0 - xj as real, xi as real - xj as real;
    var q := a / b;
    assert q * b == a;
    ProductAsReal(d, xi - xj);
    ProductAsReal(n, 0 - xj);
    assert b == (xi - xj) as real && a == (0 - xj) as real;
    Regroup(l, q, d as real, b);
  }

  lemma Regroup(l: real, q: real, d: real, b: real)
    ensures (l * q) * (d * b) == (l * d) * (q * b)
  {
  }

  lemma ProductAsReal(a: int, b: int)
    ensures (a * b) as real == a as real * b as real
  {
  }

  lemma CancelReal(l: real, w: real, d: real)
    requires d != 0.0 && l * d == w * d
    ensures l == w
  {
    assert (l - w) * d == 0.0;
  }

  /** Every term of the reconstruction is an integer before it is truncated. */
  lemma TermExact(shares: seq<Share>, t: nat, i: nat)
    requires i < t <= |shares| && Abscissas(shares, t) == Nodes(t) && Unequal(Nodes(t))
    ensures Den(Nodes(t), i) != 0
    ensures Ratio(Num(Nodes(t), i), Den(Nodes(t), i)) == (Sign(i) * Choose(t, i + 1)) as real
    ensures Term(shares, t, i) == shares[i].y * BinomialWeights(t)[i]
  {
    var xs, w := Nodes(t), BinomialWeights(t)[i];
    NodeWeight(t, i);
    assert w == Sign(i) * Choose(t, i + 1);
    CastExact(shares[i].y, w);
    assert Term(shares, t, i) == Cast(Times(Finite(shares[i].y as real), LagrangeWeight(xs, i, t)));
    hide *;
  }

  lemma NodeWeight(t: nat, i: nat)
    requires i < t
    ensures Den(Nodes(t), i) != 0
    ensures Ratio(Num(Nodes(t), i), Den(Nodes(t), i)) == BinomialWeights(t)[i] as real
    ensures LagrangeWeight(Nodes(t), i, t) == Finite(BinomialWeights(t)[i] as real)
  {
    var xs := Nodes(t);
    assert Unequal(xs);
    NoTwins(xs, i, t);
    WeightExact(xs, i, t);
    WeightsAreBinomial(t);
    hide LagrangeWeight, Ratio, SkipProduct, Twin, BinomialWeights;
    RatioExact(Num(xs, i), Den(xs, i), BinomialWeights(t)[i]);
  }

  lemma RatioExact(n: int, d: int, w: int)
    requires d != 0 && d * w == n
    ensures Ratio(n, d) == w as real
  {
    ProductAsReal(d, w);
    RatioUnique(w as real, n, d);
  }

  lemma CastExact(y: int, w: int)
    ensures Cast(Times(Finite(y as real), Finite(w as real))) == y * w
  {
    ProductAsReal(y, w);
    var n := y * w;
    assert (-n) as real == -(n as real);
  }

  lemma {:induction false} ReconstructedIsSample(shares: seq<Share>, c: seq<int>, t: nat, n: nat)
    requires n <= t <= |shares|
    requires forall i :: 0 <= i < t ==> shares[i].x == i + 1 && shares[i].y == Eval(c, i + 1)
    ensures Unequal(Abscissas(shares, t))
    ensures Reconstructed(shares, t, n) == Sample(c, Nodes(t), BinomialWeights(t), n)
  {
    assert Abscissas(shares, t) == Nodes(t);
    if n != 0 {
      ReconstructedIsSample(shares, c, t, n - 1);
      TermExact(shares, t, n - 1);
      assert Nodes(t)[n - 1] == n;
    }
  }

  /** The first t shares of a polynomial with t coefficients give back its constant term. */
  lemma RoundTrip(shares: seq<Share>, c: seq<int>, t: nat)
    requires 0 < t == |c| && t <= |shares|
    requires forall i :: 0 <= i < t ==> shares[i].x == i + 1 && shares[i].y == Eval(c, i + 1)
    ensures Unequal(Abscissas(shares, t)) && Reconstructed(shares, t, t) == c[0]
  {
    ReconstructedIsSample(shares, c, t, t);
    WeightsAreBinomial(t);
    assert Unequal(Nodes(t));
    IntegersSeparated(Nodes(t));
    Interpolate(c, Nodes(t), BinomialWeights(t), 0);
    assert Eval(c, 0) == c[0] + 0 * Eval(c[1..], 0);
  }
}
