/**
  The classical simulation of Grover's search (GroverSearch::search in
  crates/quantum/src/algorithms.rs), over real numbers.  The starting amplitude, which the source
  computes as a reciprocal square root, is a parameter, and so is the number of iterations.
 */
module Grover {
  import opened Arithmetic
  import opened Wrappers

  type Oracle = nat -> bool

  function Marked(oracle: Oracle, n: nat): (m: nat)
    ensures m <= n
  {
    if n == 0 then 0 else Marked(oracle, n - 1) + (if oracle(n - 1) then 1 else 0)
  }

  // One marked and one unmarked amplitude describe a whole state.
  datatype Pair = Pair(marked: real, unmarked: real)

  function State(oracle: Oracle, n: nat, p: Pair): (s: seq<real>)
    ensures |s| == n
  {
    seq(n, i requires 0 <= i < n => if oracle(i) then p.marked else p.unmarked)
  }

  // Flip the marked amplitude, then reflect both about the mean of n amplitudes, m of them marked.
  function Iterate(n: nat, m: nat, p: Pair): Pair
    requires 0 < n && m <= n
  {
    var mean := ((n - m) as real * p.unmarked - m as real * p.marked) / n as real;
    Pair(2.0 * mean + p.marked, 2.0 * mean - p.unmarked)
  }

  function Iterated(n: nat, m: nat, amplitude: real, k: nat): Pair
    requires 0 < n && m <= n
  {
    if k == 0 then Pair(amplitude, amplitude) else Iterate(n, m, Iterated(n, m, amplitude, k - 1))
  }

  // ----- Sums -----

  function Sum(s: seq<real>): real {
    if s == [] then 0.0 else Sum(s[..|s| - 1]) + s[|s| - 1]
  }

  function SumSquares(s: seq<real>): real {
    if s == [] then 0.0 else SumSquares(s[..|s| - 1]) + s[|s| - 1] * s[|s| - 1]
  }

  // m times a plus u times b, for counts m and u.
  function Weighted(m: nat, a: real, u: nat, b: real): real {
    m as real * a + u as real * b
  }

  lemma WeightedSteps(m: nat, a: real, u: nat, b: real)
    ensures Weighted(m + 1, a, u, b) == Weighted(m, a, u, b) + a
    ensures Weighted(m, a, u + 1, b) == Weighted(m, a, u, b) + b
  {
  }

  lemma {:induction false} SumState(oracle: Oracle, n: nat, p: Pair)
    ensures Sum(State(oracle, n, p)) == Weighted(Marked(oracle, n), p.marked, n - Marked(oracle, n), p.unmarked)
    ensures SumSquares(State(oracle, n, p)) == SquaredNorm(n, Marked(oracle, n), p)
  {
    hide Weighted, SquaredNorm;
    if n == 0 {
      NoWeight(p);
    } else {
      SumState(oracle, n - 1, p);
      assert State(oracle, n, p)[..n - 1] == State(oracle, n - 1, p);
      var m, last := Marked(oracle, n - 1), if oracle(n - 1) then p.marked else p.unmarked;
      assert State(oracle, n, p)[n - 1] == last;
      assert SumSquares(State(oracle, n, p)) == SumSquares(State(oracle, n - 1, p)) + last * last;
      WeightedSteps(m, p.marked, n - 1 - m, p.unmarked);
      SquaredNormSteps(n - 1, m, p);
    }
  }

  lemma SquaredNormSteps(n: nat, m: nat, p: Pair)
    requires m <= n
    ensures SquaredNorm(n + 1, m + 1, p) == SquaredNorm(n, m, p) + p.marked * p.marked
    ensures SquaredNorm(n + 1, m, p) == SquaredNorm(n, m, p) + p.unmarked * p.unmarked
  {
    WeightedSteps(m, p.marked * p.marked, n - m, p.unmarked * p.unmarked);
  }

  lemma NoWeight(p: Pair)
    ensures Weighted(0, p.marked, 0, p.unmarked) == 0.0 == SquaredNorm(0, 0, p)
  {
  }

  function SquaredNorm(n: nat, m: nat, p: Pair): real
    requires m <= n
  {
    Weighted(m, p.marked * p.marked, n - m, p.unmarked * p.unmarked)
  }

  lemma NormKept(n: nat, m: nat, p: Pair)
    requires 0 < n && m <= n
    ensures SquaredNorm(n, m, Iterate(n, m, p)) == SquaredNorm(n, m, p)
  {
    var M, U, N, a, b := m as real, (n - m) as real, n as real, p.marked, p.unmarked;
    var mean := (U * b - M * a) / N;
    assert mean * N == U * b - M * a;
    ReflectionKeepsNorm(M, U, a, b, mean);
  }

  lemma ReflectionKeepsNorm(M: real, U: real, a: real, b: real, mean: real)
    requires mean * (M + U) == U * b - M * a
    ensures M * ((2.0 * mean + a) * (2.0 * mean + a)) + U * ((2.0 * mean - b) * (2.0 * mean - b))
      == M * (a * a) + U * (b * b)
  {
    var t := 4.0 * mean;
    assert (2.0 * mean + a) * (2.0 * mean + a) == t * mean + t * a + a * a;
    assert (2.0 * mean - b) * (2.0 * mean - b) == t * mean - t * b + b * b;
    assert M * (t * mean + t * a + a * a) == t * (M * mean) + t * (M * a) + M * (a * a);
    assert U * (t * mean - t * b + b * b) == t * (U * mean) - t * (U * b) + U * (b * b);
    assert t * (M * mean) + t * (M * a) + t * (U * mean) - t * (U * b) == t * (mean * (M + U) - (U * b - M * a));
  }

  lemma {:induction false} IteratedNorm(n: nat, m: nat, amplitude: real, k: nat)
    requires 0 < n && m <= n
    ensures SquaredNorm(n, m, Iterated(n, m, amplitude, k)) == amplitude * amplitude * n as real
  {
    if k == 0 {
      SplitProduct(m, n - m, amplitude * amplitude);
    } else {
      IteratedNorm(n, m, amplitude, k - 1);
      NormKept(n, m, Iterated(n, m, amplitude, k - 1));
    }
  }

  lemma SplitProduct(m: nat, u: nat, r: real)
    ensures m as real * r + u as real * r == r * (m + u) as real
  {
  }

  /** Every iteration keeps the sum of the squared amplitudes: it stays 1 from the uniform start. */
  lemma ProbabilityConserved(oracle: Oracle, n: nat, amplitude: real, k: nat)
    requires 0 < n && amplitude * amplitude * n as real == 1.0
    ensures SumSquares(State(oracle, n, Iterated(n, Marked(oracle, n), amplitude, k))) == 1.0
  {
    SumState(oracle, n, Iterated(n, Marked(oracle, n), amplitude, k));
    IteratedNorm(n, Marked(oracle, n), amplitude, k);
  }

  // ----- The search as the code runs it -----

  // r is the last index at which s is largest in absolute value.
  ghost predicate LastLargest(s: seq<real>, r: nat) {
    && r < |s|
    && (forall i :: 0 <= i < |s| ==> Abs(s[i]) <= Abs(s[r]))
    && (forall i :: r < i < |s| ==> Abs(s[i]) < Abs(s[r]))
  }

  method Search(oracle: Oracle, databaseSize: nat, amplitude: real, iterations: nat) returns (r: Option<nat>)
    ensures r.None? <==> databaseSize == 0
    ensures r.Some? ==> LastLargest(
      State(oracle, databaseSize, Iterated(databaseSize, Marked(oracle, databaseSize), amplitude, iterations)), r.value)
  {
    var n := databaseSize;
    if n == 0 {
      return None;
    }
    ghost var m := Marked(oracle, n);
    var state := new real[n](_ => amplitude);
    assert state[..] == State(oracle, n, Iterated(n, m, amplitude, 0));
    for k := 0 to iterations
      invariant state[..] == State(oracle, n, Iterated(n, m, amplitude, k))
    {
      ApplyIteration(oracle, state, Iterated(n, m, amplitude, k));
    }
    var best := 0;
    for i := 1 to n
      invariant LastLargest(state[..i], best)
    {
      if Abs(state[i]) >= Abs(state[best]) {
        best := i;
      }
    }
    assert state[..n] == state[..];
    return Some(best);
  }

  // The body of the loop: the oracle, then the diffusion operator.
  method ApplyIteration(oracle: Oracle, state: array<real>, ghost p: Pair)
    requires state.Length > 0 && state[..] == State(oracle, state.Length, p)
    modifies state
    ensures state[..] == State(oracle, state.Length, Iterate(state.Length, Marked(oracle, state.Length), p))
  {
    var n := state.Length;
    ghost var m, flipped := Marked(oracle, n), Pair(-p.marked, p.unmarked);
    FlipMarked(oracle, state, p);
    SumState(oracle, n, flipped);
    var sum := Total(state);
    var mean := sum / n as real;
    MeanOfFlipped(n, m, p, sum);
    Reflect(oracle, state, flipped, mean);
  }

  lemma MeanOfFlipped(n: nat, m: nat, p: Pair, sum: real)
    requires 0 < n && m <= n && sum == m as real * -p.marked + (n - m) as real * p.unmarked
    ensures Iterate(n, m, p) == Pair(2.0 * (sum / n as real) - -p.marked, 2.0 * (sum / n as real) - p.unmarked)
  {
    assert m as real * -p.marked == -(m as real * p.marked);
    assert sum == (n - m) as real * p.unmarked - m as real * p.marked;
  }

  method FlipMarked(oracle: Oracle, state: array<real>, ghost p: Pair)
    requires state[..] == State(oracle, state.Length, p)
    modifies state
    ensures state[..] == State(oracle, state.Length, Pair(-p.marked, p.unmarked))
  {
    for i := 0 to state.Length
      invariant forall k :: 0 <= k < i ==> state[k] == if oracle(k) then -p.marked else p.unmarked
      invariant forall k :: i <= k < state.Length ==> state[k] == if oracle(k) then p.marked else p.unmarked
    {
      if oracle(i) {
        state[i] := -state[i];
      }
    }
  }

  method Reflect(oracle: Oracle, state: array<real>, ghost p: Pair, mean: real)
    requires state[..] == State(oracle, state.Length, p)
    modifies state
    ensures state[..] == State(oracle, state.Length, Pair(2.0 * mean - p.marked, 2.0 * mean - p.unmarked))
  {
    for i := 0 to state.Length
      invariant forall k :: 0 <= k < i ==> state[k] == 2.0 * mean - if oracle(k) then p.marked else p.unmarked
      invariant forall k :: i <= k < state.Length ==> state[k] == if oracle(k) then p.marked else p.unmarked
    {
      state[i] := 2.0 * mean - state[i];
    }
  }

  method Total(state: array<real>) returns (sum: real)
    ensures sum == Sum(state[..])
  {
    sum := 0.0;
    for i := 0 to state.Length
      invariant sum == Sum(state[..i])
    {
      assert state[..i + 1][..i] == state[..i];
      sum := sum + state[i];
    }
    assert state[..state.Length] == state[..];
  }

  // ----- When the search finds a marked index -----

  lemma {:induction false} MarkedExists(oracle: Oracle, n: nat)
    ensures Marked(oracle, n) > 0 <==> exists i: nat :: i < n && oracle(i)
    ensures Marked(oracle, n) < n <==> exists i: nat :: i < n && !oracle(i)
  {
    if n != 0 {
      MarkedExists(oracle, n - 1);
      if i: nat :| i < n - 1 && oracle(i) {}
      if i: nat :| i < n - 1 && !oracle(i) {}
    }
  }

  /** The result is marked if and only if something is, and either everything is, or the marked
      amplitude is the larger in magnitude, or both are as large and the last index is marked. */
  lemma FindsMarkedExactly(oracle: Oracle, n: nat, p: Pair, r: nat)
    requires LastLargest(State(oracle, n, p), r)
    ensures oracle(r) <==>
      && Marked(oracle, n) > 0
      && (|| Marked(oracle, n) == n
          || Abs(p.marked) > Abs(p.unmarked)
          || (Abs(p.marked) == Abs(p.unmarked) && oracle(n - 1)))
  {
    MarkedExists(oracle, n);
    var s := State(oracle, n, p);
    if 0 < Marked(oracle, n) < n {
      var i: nat :| i < n && oracle(i);
      var j: nat :| j < n && !oracle(j);
      assert s[i] == p.marked && s[j] == p.unmarked;
      if Abs(p.marked) == Abs(p.unmarked) {
        assert Abs(s[n - 1]) == Abs(s[r]);
      }
    }
  }

  // ----- The constructor's number of iterations -----

  // A quarter of pi times the square root of the size, rounded.
  function Iterations(pi: real, root: real): nat
    requires pi >= 0.0 && root >= 0.0
  {
    NonNegativeProduct(pi / 4.0, root);
    (pi / 4.0 * root + 0.5).Floor
  }

  lemma NonNegativeProduct(a: real, b: real)
    ensures a >= 0.0 && b >= 0.0 ==> a * b >= 0.0
  {
  }

  lemma RootOfFour(root: real)
    requires root >= 0.0 && root * root == 4.0
    ensures root == 2.0
  {
    Increasing(root, 2.0);
    Increasing(2.0, root);
  }

  lemma Increasing(a: real, b: real)
    requires 0.0 <= a
    ensures a < b ==> a * a < b * b
  {
    if a < b {
      NonNegativeProduct(a, b - a);
      assert b * (b - a) > 0.0;
      assert b * b - a * a == b * (b - a) + a * (b - a);
    }
  }

  // Two iterations over four entries.
  lemma FourTwice(m: nat)
    requires m <= 4
    ensures var p := Iterated(4, m, 0.5, 2);
      && (m > 0 ==> Abs(p.marked) == 0.5) && (m < 4 ==> Abs(p.unmarked) == 0.5)
  {
    var start := Pair(0.5, 0.5);
    assert Iterated(4, m, 0.5, 0) == start;
    assert Iterated(4, m, 0.5, 1) == Iterate(4, m, start);
    assert Iterated(4, m, 0.5, 2) == Iterate(4, m, Iterate(4, m, start));
    if m == 0 {
    } else if m == 1 {
      assert Iterate(4, m, start) == Pair(1.0, 0.0);
    } else if m == 2 {
      assert Iterate(4, m, start) == Pair(0.5, -0.5);
    } else if m == 3 {
      assert Iterate(4, m, start) == Pair(0.0, -1.0);
    }
  }

  /** Four entries: the constructor chooses two iterations, after which all amplitudes are equal in
      magnitude, so that the search returns the last index whatever the oracle marks; it finds a
      marked entry if and only if the last one is.  One iteration would find a single mark for sure. */
  lemma FourEntries(oracle: Oracle, pi: real, root: real, r: nat, once: nat)
    requires 3.0 < pi < 4.0 && root >= 0.0 && root * root == 4.0
    requires LastLargest(State(oracle, 4, Iterated(4, Marked(oracle, 4), 1.0 / root, Iterations(pi, root))), r)
    requires LastLargest(State(oracle, 4, Iterated(4, Marked(oracle, 4), 1.0 / root, 1)), once)
    ensures Iterations(pi, root) == 2 && r == 3
    ensures oracle(r) <==> oracle(3)
    ensures Marked(oracle, 4) == 1 ==> oracle(once)
  {
    var m := Marked(oracle, 4);
    RootOfFour(root);
    assert Iterations(pi, root) == 2 by {
      assert pi / 4.0 * root == pi / 2.0;
    }
    FourTwice(m);
    MarkedExists(oracle, 4);
    var p := Iterated(4, m, 0.5, 2);
    var s := State(oracle, 4, p);
    assert 1.0 / root == 0.5;
    assert forall i :: 0 <= i < 4 ==> Abs(s[i]) == 0.5;
    assert Abs(s[3]) == 0.5 && Abs(s[r]) == 0.5;
    if m == 1 {
      assert Iterated(4, 1, 0.5, 0) == Pair(0.5, 0.5);
      assert Iterated(4, 1, 0.5, 1) == Iterate(4, 1, Pair(0.5, 0.5)) == Pair(1.0, 0.0);
      FindsMarkedExactly(oracle, 4, Pair(1.0, 0.0), once);
    }
  }
}
