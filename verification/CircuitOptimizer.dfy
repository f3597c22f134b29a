/**
  Quantum circuits and their peephole optimizer (crates/quantum/src/circuit_optimizer.rs).
  Angles are real numbers.  The meaning of a circuit is a parameter: any interpretation of gates
  as state transformers in which the gates that the optimizer cancels are self-inverse and
  rotations about one axis add up.
 */
module CircuitOptimizer {
  import opened Arithmetic

  datatype Complex = Complex(re: real, im: real)

  datatype Gate =
    | PauliX | PauliY | PauliZ | Hadamard
    | Phase(angle: real)
    | Rx(angle: real) | Ry(angle: real) | Rz(angle: real)
    | CX | CY | CZ | CCX | Swap | Measure | Reset | Identity
    | Custom(name: string, matrix: seq<seq<Complex>>, numQubits: nat)

  datatype Op = Op(gate: Gate, targets: seq<nat>)

  datatype Level = Off | Basically | Aggressively

  function Last<T>(s: seq<T>): T
    requires s != []
  {
    s[|s| - 1]
  }

  function Init<T>(s: seq<T>): seq<T>
    requires s != []
  {
    s[..|s| - 1]
  }

  // ----- Circuits -----

  ghost predicate InRange(gates: seq<Op>, n: nat) {
    forall op :: op in gates ==> forall t :: t in op.targets ==> t < n
  }

  /** The qubits are numbered from 0. */
  lemma TargetsInRange(gates: seq<Op>, op: Op, n: nat)
    ensures InRange(gates + [op], n) <==> InRange(gates, n) && forall t :: t in op.targets ==> t < n
    ensures InRange([], n)
  {
    var all := gates + [op];
    assert all[|gates|] == op;
    assert forall o :: o in gates ==> o in all;
    assert forall o :: o in all ==> o in gates || o == op;
  }

  class QuantumCircuit {
    var numQubits: nat
    var gates: seq<Op>
    var measurements: seq<nat>

    constructor (numQubits: nat)
      ensures this.numQubits == numQubits && gates == [] && measurements == []
    {
      this.numQubits := numQubits;
      gates := [];
      measurements := [];
    }

    method AddGate(gate: Gate, targets: seq<nat>) returns (ok: bool)
      modifies this`gates
      ensures ok <==> forall t :: t in targets ==> t < numQubits
      ensures gates == if ok then old(gates) + [Op(gate, targets)] else old(gates)
      ensures old(InRange(gates, numQubits)) ==> InRange(gates, numQubits)
    {
      for i := 0 to |targets|
        invariant forall k :: 0 <= k < i ==> targets[k] < numQubits
      {
        if targets[i] >= numQubits {
          assert targets[i] in targets;
          return false;
        }
      }
      gates := gates + [Op(gate, targets)];
      return true;
    }

    method AddMeasurement(qubit: nat) returns (ok: bool)
      modifies this`measurements
      ensures ok <==> qubit < numQubits
      ensures measurements == if ok then old(measurements) + [qubit] else old(measurements)
    {
      if qubit >= numQubits {
        return false;
      }
      measurements := measurements + [qubit];
      return true;
    }
  }

  // ----- What the passes look for -----

  predicate SelfInverse(g: Gate) {
    g.PauliX? || g.PauliY? || g.PauliZ? || g.Hadamard? || g.CX? || g.CY? || g.CZ?
  }

  predicate IsRotation(g: Gate) {
    g.Rx? || g.Ry? || g.Rz?
  }

  predicate SameAxis(g: Gate, h: Gate) {
    (g.Rx? && h.Rx?) || (g.Ry? && h.Ry?) || (g.Rz? && h.Rz?)
  }

  function FuseGates(g: Gate, h: Gate): Gate
    requires SameAxis(g, h)
  {
    match g
    case Rx(a) => Rx(a + h.angle)
    case Ry(a) => Ry(a + h.angle)
    case Rz(a) => Rz(a + h.angle)
  }

  predicate Cancels(a: Op, b: Op) {
    a == b && SelfInverse(a.gate)
  }

  predicate Fusable(a: Op, b: Op) {
    a.targets == b.targets && SameAxis(a.gate, b.gate)
  }

  function Fuse(a: Op, b: Op): Op
    requires Fusable(a, b)
  {
    Op(FuseGates(a.gate, b.gate), a.targets)
  }

  const TOLERANCE := 0.0000000001

  predicate Redundant(a: Op, b: Op) {
    a.targets == b.targets &&
    ((a.gate.Hadamard? && b.gate.Hadamard?)
     || (SameAxis(a.gate, b.gate) && Abs(a.gate.angle + b.gate.angle) < TOLERANCE))
  }

  // ----- The passes as functions -----

  function CancelStep(buffer: seq<Op>, op: Op): seq<Op> {
    if buffer != [] && Cancels(Last(buffer), op) then Init(buffer) else buffer + [op]
  }

  function Basic(gates: seq<Op>): seq<Op> {
    if gates == [] then [] else CancelStep(Basic(Init(gates)), Last(gates))
  }

  function MergeStep(buffer: seq<Op>, op: Op): seq<Op> {
    if buffer != [] && Fusable(Last(buffer), op) then Init(buffer) + [Fuse(Last(buffer), op)]
    else buffer + [op]
  }

  function Merge(gates: seq<Op>): seq<Op> {
    if gates == [] then [] else MergeStep(Merge(Init(gates)), Last(gates))
  }

  function RemoveRedundant(gates: seq<Op>): seq<Op> {
    if |gates| < 2 then gates
    else if Redundant(gates[0], gates[1]) then RemoveRedundant(gates[2..])
    else [gates[0]] + RemoveRedundant(gates[1..])
  }

  function Aggressive(gates: seq<Op>): seq<Op> {
    RemoveRedundant(Merge(Basic(gates)))
  }

  function Optimized(level: Level, gates: seq<Op>): seq<Op> {
    match level
    case Off => gates
    case Basically => Basic(gates)
    case Aggressively => Aggressive(gates)
  }

  // ----- The passes as the code runs them -----

  class Optimizer {
    var level: Level

    constructor (level: Level)
      ensures this.level == level
    {
      this.level := level;
    }

    method Optimize(circuit: QuantumCircuit) returns (r: QuantumCircuit)
      ensures fresh(r) && r.numQubits == circuit.numQubits && r.measurements == circuit.measurements
      ensures r.gates == Optimized(level, circuit.gates)
    {
      match level {
        case Off =>
          r := new QuantumCircuit(circuit.numQubits);
          r.measurements := circuit.measurements;
          r.gates := circuit.gates;
        case Basically => r := BasicOptimize(circuit);
        case Aggressively => r := AggressiveOptimize(circuit);
      }
    }

    method BasicOptimize(circuit: QuantumCircuit) returns (r: QuantumCircuit)
      ensures fresh(r) && r.numQubits == circuit.numQubits && r.measurements == circuit.measurements
      ensures r.gates == Basic(circuit.gates)
    {
      r := new QuantumCircuit(circuit.numQubits);
      r.measurements := circuit.measurements;
      var buffer: seq<Op> := [];
      for i := 0 to |circuit.gates|
        invariant buffer == Basic(circuit.gates[..i])
      {
        var op := circuit.gates[i];
        assert Init(circuit.gates[..i + 1]) == circuit.gates[..i];
        if |buffer| > 0 && op == buffer[|buffer| - 1] && SelfInverse(op.gate) {
          buffer := buffer[..|buffer| - 1];
          continue;
        }
        buffer := buffer + [op];
      }
      assert circuit.gates[..|circuit.gates|] == circuit.gates;
      r.gates := buffer;
    }

    method AggressiveOptimize(circuit: QuantumCircuit) returns (r: QuantumCircuit)
      ensures fresh(r) && r.numQubits == circuit.numQubits && r.measurements == circuit.measurements
      ensures r.gates == Aggressive(circuit.gates)
    {
      r := BasicOptimize(circuit);
      var merged := MergeRotations(r.gates);
      r.gates := merged;
      var kept := RemoveRedundantGates(r.gates);
      r.gates := kept;
    }

    method MergeRotations(gates: seq<Op>) returns (result: seq<Op>)
      ensures result == Merge(gates)
    {
      if gates == [] {
        return [];
      }
      result := [];
      var i := 0;
      while i < |gates|
        invariant 0 <= i <= |gates| && result == Merge(gates[..i])
        invariant i < |gates| && result != [] ==> !Fusable(Last(result), gates[i])
      {
        var op := gates[i];
        assert Init(gates[..i + 1]) == gates[..i] && Last(gates[..i + 1]) == op;
        assert Merge(gates[..i + 1]) == result + [op];
        if IsRotation(op.gate) {
          var merged, j := MergeRun(gates, i, result);
          result := result + [Op(merged, op.targets)];
          i := j;
        } else {
          result := result + [op];
          i := i + 1;
        }
      }
      assert gates[..|gates|] == gates;
    }

    // The inner loop: the run of rotations that starts at gate i.
    method MergeRun(gates: seq<Op>, i: nat, ghost result: seq<Op>) returns (merged: Gate, j: nat)
      requires i < |gates| && IsRotation(gates[i].gate)
      requires Merge(gates[..i + 1]) == result + [gates[i]]
      ensures i < j <= |gates|
      ensures Merge(gates[..j]) == result + [Op(merged, gates[i].targets)]
      ensures j < |gates| ==> !Fusable(Op(merged, gates[i].targets), gates[j])
    {
      var targets := gates[i].targets;
      merged := gates[i].gate;
      j := i + 1;
      while j < |gates|
        invariant i < j <= |gates| && IsRotation(merged)
        invariant Merge(gates[..j]) == result + [Op(merged, targets)]
      {
        MergeExtend(gates, j, result, Op(merged, targets));
        if targets == gates[j].targets {
          if SameAxis(merged, gates[j].gate) {
            merged := FuseGates(merged, gates[j].gate);
          } else {
            break;
          }
          j := j + 1;
        } else {
          break;
        }
      }
    }

    method RemoveRedundantGates(gates: seq<Op>) returns (result: seq<Op>)
      ensures result == RemoveRedundant(gates)
    {
      if gates == [] {
        return [];
      }
      result := [];
      var skipNext := false;
      for i := 0 to |gates|
        invariant skipNext ==> i < |gates|
        invariant result + RemoveRedundant(gates[if skipNext then i + 1 else i..]) == RemoveRedundant(gates)
      {
        if skipNext {
          skipNext := false;
          continue;
        }
        var rest := gates[i..];
        if i + 1 < |gates| {
          assert rest[1..] == gates[i + 1..] && rest[2..] == gates[i + 2..];
          if Redundant(gates[i], gates[i + 1]) {
            skipNext := true;
            continue;
          }
        } else {
          assert rest == [gates[i]] && gates[i + 1..] == [];
        }
        result := result + [gates[i]];
      }
    }
  }

  lemma MergeExtend(gates: seq<Op>, j: nat, result: seq<Op>, op: Op)
    requires j < |gates| && Merge(gates[..j]) == result + [op]
    ensures Merge(gates[..j + 1]) ==
      if Fusable(op, gates[j]) then result + [Fuse(op, gates[j])] else (result + [op]) + [gates[j]]
  {
    assert Init(gates[..j + 1]) == gates[..j] && Last(gates[..j + 1]) == gates[j];
    InitSnoc(result, op);
  }

  // ----- Meaning -----

  datatype Interpretation<!S> = Interpretation(apply: (Op, S) -> S)

  ghost predicate Lawful<S(!new)>(m: Interpretation<S>) {
    && (forall op: Op, s: S :: SelfInverse(op.gate) ==> m.apply(op, m.apply(op, s)) == s)
    && (forall a: Op, b: Op, s: S :: Fusable(a, b) ==> m.apply(b, m.apply(a, s)) == m.apply(Fuse(a, b), s))
  }

  function Denote<S>(m: Interpretation<S>, gates: seq<Op>, s: S): S {
    if gates == [] then s else m.apply(Last(gates), Denote(m, Init(gates), s))
  }

  lemma InitSnoc<T>(s: seq<T>, x: T)
    ensures Init(s + [x]) == s && Last(s + [x]) == x
  {
  }

  lemma InitLast<T>(s: seq<T>)
    requires s != []
    ensures s == Init(s) + [Last(s)]
  {
  }

  lemma CancelStepMeaning<S(!new)>(m: Interpretation<S>, buffer: seq<Op>, op: Op, s: S)
    requires Lawful(m)
    ensures Denote(m, CancelStep(buffer, op), s) == m.apply(op, Denote(m, buffer, s))
  {
    InitSnoc(buffer, op);
  }

  lemma MergeStepMeaning<S(!new)>(m: Interpretation<S>, buffer: seq<Op>, op: Op, s: S)
    requires Lawful(m)
    ensures Denote(m, MergeStep(buffer, op), s) == m.apply(op, Denote(m, buffer, s))
  {
    InitSnoc(buffer, op);
    if buffer != [] && Fusable(Last(buffer), op) {
      InitSnoc(Init(buffer), Fuse(Last(buffer), op));
    }
  }

  lemma {:induction false} BasicMeaning<S(!new)>(m: Interpretation<S>, gates: seq<Op>, s: S)
    requires Lawful(m)
    ensures Denote(m, Basic(gates), s) == Denote(m, gates, s)
  {
    if gates != [] {
      BasicMeaning(m, Init(gates), s);
      CancelStepMeaning(m, Basic(Init(gates)), Last(gates), s);
    }
  }

  lemma {:induction false} MergeMeaning<S(!new)>(m: Interpretation<S>, gates: seq<Op>, s: S)
    requires Lawful(m)
    ensures Denote(m, Merge(gates), s) == Denote(m, gates, s)
  {
    if gates != [] {
      MergeMeaning(m, Init(gates), s);
      MergeStepMeaning(m, Merge(Init(gates)), Last(gates), s);
    }
  }

  // ----- Normal forms -----

  ghost predicate NoCancelling(s: seq<Op>) {
    forall i :: 0 < i < |s| ==> !Cancels(s[i - 1], s[i])
  }

  ghost predicate NoFusable(s: seq<Op>) {
    forall i :: 0 < i < |s| ==> !Fusable(s[i - 1], s[i])
  }

  lemma {:induction false} BasicReduces(gates: seq<Op>)
    ensures NoCancelling(Basic(gates))
  {
    if gates != [] {
      BasicReduces(Init(gates));
    }
  }

  lemma {:induction false} BasicFixed(gates: seq<Op>)
    requires NoCancelling(gates)
    ensures Basic(gates) == gates
  {
    if gates != [] {
      BasicFixed(Init(gates));
      InitLast(gates);
      assert |gates| > 1 ==> Last(Init(gates)) == gates[|gates| - 2];
    }
  }

  /** Optimizing a prefix first makes no difference, so circuits may be optimized in pieces. */
  lemma {:induction false} BasicInPieces(a: seq<Op>, b: seq<Op>)
    ensures Basic(a + b) == Basic(Basic(a) + b)
  {
    if b == [] {
      BasicReduces(a);
      BasicFixed(Basic(a));
      assert a + b == a && Basic(a) + b == Basic(a);
    } else {
      BasicInPieces(a, Init(b));
      assert Init(a + b) == a + Init(b) && Last(a + b) == Last(b);
      assert Init(Basic(a) + b) == Basic(a) + Init(b) && Last(Basic(a) + b) == Last(b);
    }
  }

  // Merging keeps a final gate that is no rotation, and ends in a rotation after one.
  lemma {:induction false} MergeLast(gates: seq<Op>)
    requires gates != []
    ensures Merge(gates) != []
    ensures if IsRotation(Last(gates).gate) then IsRotation(Last(Merge(gates)).gate)
            else Last(Merge(gates)) == Last(gates)
  {
    InitSnoc(Merge(Init(gates)), Last(gates));
  }

  lemma {:induction false} MergeNormalises(gates: seq<Op>)
    requires NoCancelling(gates)
    ensures NoCancelling(Merge(gates)) && NoFusable(Merge(gates))
  {
    if gates != [] {
      var front := Init(gates);
      MergeNormalises(front);
      if front != [] {
        MergeLast(front);
        assert !Cancels(gates[|gates| - 2], gates[|gates| - 1]);
        MergeStepNormalises(Merge(front), Last(front), Last(gates));
      }
    }
  }

  // last is the gate that the merged buffer ends in, or a rotation fused into its end.
  lemma MergeStepNormalises(buffer: seq<Op>, last: Op, op: Op)
    requires buffer != [] && NoCancelling(buffer) && NoFusable(buffer) && !Cancels(last, op)
    requires if IsRotation(last.gate) then IsRotation(Last(buffer).gate) else Last(buffer) == last
    ensures NoCancelling(MergeStep(buffer, op)) && NoFusable(MergeStep(buffer, op))
  {
    var r := MergeStep(buffer, op);
    forall i | 0 < i < |r|
      ensures !Cancels(r[i - 1], r[i]) && !Fusable(r[i - 1], r[i])
    {
      if i < |buffer| {
        assert !Cancels(buffer[i - 1], buffer[i]) && !Fusable(buffer[i - 1], buffer[i]);
      }
    }
  }

  lemma {:induction false} MergeFixed(gates: seq<Op>)
    requires NoFusable(gates)
    ensures Merge(gates) == gates
  {
    if gates != [] {
      MergeFixed(Init(gates));
      InitLast(gates);
    }
  }

  lemma {:induction false} NothingRedundant(gates: seq<Op>)
    requires NoCancelling(gates) && NoFusable(gates)
    ensures RemoveRedundant(gates) == gates
  {
    if |gates| >= 2 {
      assert !Cancels(gates[0], gates[1]) && !Fusable(gates[0], gates[1]);
      forall i | 0 < i < |gates| - 1
        ensures !Cancels(gates[1..][i - 1], gates[1..][i]) && !Fusable(gates[1..][i - 1], gates[1..][i])
      {
        assert gates[1..][i] == gates[i + 1] && gates[1..][i - 1] == gates[i + 1 - 1];
      }
      NothingRedundant(gates[1..]);
      assert [gates[0]] + gates[1..] == gates;
    }
  }

  /** Inside the pipeline the last pass finds nothing to remove, so its tolerance never acts. */
  lemma PipelineNormalises(gates: seq<Op>)
    ensures Aggressive(gates) == Merge(Basic(gates))
    ensures NoCancelling(Aggressive(gates)) && NoFusable(Aggressive(gates))
  {
    BasicReduces(gates);
    MergeNormalises(Basic(gates));
    NothingRedundant(Merge(Basic(gates)));
  }

  // ----- Main results -----

  /** The optimizer preserves the meaning of every circuit under every lawful interpretation. */
  lemma OptimizePreservesMeaning<S(!new)>(m: Interpretation<S>, level: Level, gates: seq<Op>, s: S)
    requires Lawful(m)
    ensures Denote(m, Optimized(level, gates), s) == Denote(m, gates, s)
  {
    BasicMeaning(m, gates, s);
    MergeMeaning(m, Basic(gates), s);
    PipelineNormalises(gates);
  }

  lemma OptimizeIdempotent(level: Level, gates: seq<Op>)
    ensures Optimized(level, Optimized(level, gates)) == Optimized(level, gates)
  {
    hide Basic, Merge, RemoveRedundant, NoCancelling, NoFusable;
    BasicReduces(gates);
    BasicFixed(Basic(gates));
    PipelineNormalises(gates);
    var g := Aggressive(gates);
    PipelineNormalises(g);
    BasicFixed(g);
    MergeFixed(g);
  }

  lemma {:induction false} PassesShrink(gates: seq<Op>, n: nat)
    ensures |Basic(gates)| <= |gates| && |Merge(gates)| <= |gates|
    ensures InRange(gates, n) ==> InRange(Basic(gates), n) && InRange(Merge(gates), n)
  {
    if gates != [] {
      PassesShrink(Init(gates), n);
      InitLast(gates);
      assert InRange(gates, n) ==> InRange(Init(gates), n) && InRange([Last(gates)], n);
    }
  }

  /** The gate count never grows and every target stays within the circuit. */
  lemma OptimizeShrinks(level: Level, gates: seq<Op>, n: nat)
    ensures |Optimized(level, gates)| <= |gates|
    ensures InRange(gates, n) ==> InRange(Optimized(level, gates), n)
  {
    PassesShrink(gates, n);
    PassesShrink(Basic(gates), n);
    PipelineNormalises(gates);
  }

  // ----- Completeness -----

  ghost predicate Normal(s: seq<Op>) {
    NoCancelling(s) && NoFusable(s)
  }

  type NormalForm = s: seq<Op> | Normal(s) witness []

  // Appending a gate to a normal form, by the two laws only.
  function NormalStep(s: seq<Op>, op: Op): seq<Op> {
    if s != [] && Cancels(Last(s), op) then Init(s) else MergeStep(s, op)
  }

  lemma NormalStepNormal(s: seq<Op>, op: Op)
    requires Normal(s)
    ensures Normal(NormalStep(s, op))
  {
    if s != [] && !Cancels(Last(s), op) && Fusable(Last(s), op) && |s| > 1 {
      assert !Fusable(s[|s| - 2], s[|s| - 1]) && !Cancels(s[|s| - 2], s[|s| - 1]);
    }
  }

  function Append(s: NormalForm, op: Op): NormalForm {
    NormalStepNormal(s, op);
    NormalStep(s, op)
  }

  // The states are the normal forms themselves and each gate appends itself.
  function Free(): Interpretation<NormalForm> {
    Interpretation<NormalForm>.Interpretation((op: Op, s: NormalForm) => Append(s, op))
  }

  lemma AppendCancels(s: NormalForm, op: Op)
    requires SelfInverse(op.gate)
    ensures Append(Append(s, op), op) == s
  {
    if s != [] && Cancels(Last(s), op) {
      InitLast(s);
      assert |s| > 1 ==> !Cancels(s[|s| - 2], s[|s| - 1]);
      assert Append(s, op) == Init(s);
    } else {
      InitSnoc(s, op);
      assert Append(s, op) == s + [op];
    }
  }

  lemma AppendFuses(s: NormalForm, a: Op, b: Op)
    requires Fusable(a, b)
    ensures Append(Append(s, a), b) == Append(s, Fuse(a, b))
  {
    InitSnoc(s, a);
    if s != [] && Fusable(Last(s), a) {
      InitSnoc(Init(s), Fuse(Last(s), a));
    }
  }

  lemma FreeLawful()
    ensures Lawful(Free())
  {
    forall op: Op, s: NormalForm | SelfInverse(op.gate)
      ensures Free().apply(op, Free().apply(op, s)) == s
    {
      AppendCancels(s, op);
    }
    forall a: Op, b: Op, s: NormalForm | Fusable(a, b)
      ensures Free().apply(b, Free().apply(a, s)) == Free().apply(Fuse(a, b), s)
    {
      AppendFuses(s, a, b);
    }
  }

  lemma AppendAggressive(front: seq<Op>, op: Op)
    ensures Aggressive(front + [op]) == NormalStep(Aggressive(front), op)
  {
    PipelineNormalises(front + [op]);
    PipelineNormalises(front);
    InitSnoc(front, op);
    var b := Basic(front);
    BasicReduces(front);
    if b != [] {
      MergeLast(b);
      InitLast(b);
    }
    if b != [] && Cancels(Last(b), op) {
      InitSnoc(Merge(Init(b)), op);
    } else {
      InitSnoc(b, op);
    }
  }

  lemma {:induction false} FreeDenotesNormalForm(gates: seq<Op>)
    ensures Denote(Free(), gates, []) == Aggressive(gates)
  {
    if gates == [] {
      PipelineNormalises(gates);
    } else {
      FreeDenotesNormalForm(Init(gates));
      AppendAggressive(Init(gates), Last(gates));
      InitLast(gates);
    }
  }

  /** Soundness and completeness of aggressive optimization for the two laws: equal results mean
      equal circuits under every lawful interpretation, and circuits that agree under all of them
      (the free one suffices) have equal results. */
  lemma AggressiveDecidesEquality<S(!new)>(m: Interpretation<S>, a: seq<Op>, b: seq<Op>, s: S)
    requires Lawful(m)
    ensures Aggressive(a) == Aggressive(b) ==> Denote(m, a, s) == Denote(m, b, s)
    ensures Lawful(Free())
    ensures Denote(Free(), a, []) == Denote(Free(), b, []) <==> Aggressive(a) == Aggressive(b)
  {
    OptimizePreservesMeaning(m, Aggressively, a, s);
    OptimizePreservesMeaning(m, Aggressively, b, s);
    FreeLawful();
    FreeDenotesNormalForm(a);
    FreeDenotesNormalForm(b);
  }

  // ----- The passes on two gates, gate by gate -----

  /** Two gates cancel exactly when they are equal, on equal targets, and X, Y, Z, H, CX, CY or CZ. */
  lemma CancelsExactly(a: Op, b: Op)
    ensures Basic([a, b]) ==
      if a == b && (a.gate == PauliX || a.gate == PauliY || a.gate == PauliZ || a.gate == Hadamard
                    || a.gate == CX || a.gate == CY || a.gate == CZ)
      then [] else [a, b]
  {
    assert Init([a, b]) == [a] && Init([a]) == [];
    assert Basic([a]) == [a];
  }

  /** Two gates merge exactly when they are rotations about one axis on equal targets; angles add. */
  lemma MergesExactly(a: Op, b: Op)
    ensures Merge([a, b]) ==
      if a.gate.Rx? && b.gate.Rx? && a.targets == b.targets then [Op(Rx(a.gate.angle + b.gate.angle), a.targets)]
      else if a.gate.Ry? && b.gate.Ry? && a.targets == b.targets then [Op(Ry(a.gate.angle + b.gate.angle), a.targets)]
      else if a.gate.Rz? && b.gate.Rz? && a.targets == b.targets then [Op(Rz(a.gate.angle + b.gate.angle), a.targets)]
      else [a, b]
  {
    assert Init([a, b]) == [a] && Init([a]) == [];
    assert Merge([a]) == [a];
  }

  /** The last pass drops exactly two Hadamard gates, or two rotations about one axis, on equal
      targets whose angles add up to less than 1e-10 either way. */
  lemma DropsExactly(a: Op, b: Op)
    ensures RemoveRedundant([a, b]) ==
      if a.targets == b.targets
         && ((a.gate == Hadamard && b.gate == Hadamard)
             || (((a.gate.Rx? && b.gate.Rx?) || (a.gate.Ry? && b.gate.Ry?) || (a.gate.Rz? && b.gate.Rz?))
                 && -0.0000000001 < a.gate.angle + b.gate.angle < 0.0000000001))
      then [] else [a, b]
  {
    assert [a, b][1..] == [b] && [a, b][2..] == [];
    assert RemoveRedundant([b]) == [b];
  }

  /** What each level does to one pair that cancels and to one that merges. */
  lemma LevelsDiffer(ts: seq<nat>, x: real, y: real)
    ensures var pair, turns := [Op(PauliX, ts), Op(PauliX, ts)], [Op(Rz(x), ts), Op(Rz(y), ts)];
      && Optimized(Off, pair) == pair && Optimized(Off, turns) == turns
      && Optimized(Basically, pair) == [] && Optimized(Basically, turns) == turns
      && Optimized(Aggressively, pair) == [] && Optimized(Aggressively, turns) == [Op(Rz(x + y), ts)]
  {
    var a, b, c := Op(PauliX, ts), Op(Rz(x), ts), Op(Rz(y), ts);
    CancelsExactly(a, a);
    CancelsExactly(b, c);
    MergesExactly(b, c);
    PipelineNormalises([a, a]);
    PipelineNormalises([b, c]);
    hide Basic, Merge, RemoveRedundant, Aggressive, NoCancelling, NoFusable;
    assert Merge([]) == [] by {
      EmptyMerge();
    }
  }

  lemma EmptyMerge()
    ensures Merge([]) == []
  {
  }

  ghost predicate SquaresVanish<S>(m: Interpretation<S>, ts: seq<nat>, s: S) {
    && m.apply(Op(PauliX, ts), m.apply(Op(PauliX, ts), s)) == s
    && m.apply(Op(PauliY, ts), m.apply(Op(PauliY, ts), s)) == s
    && m.apply(Op(PauliZ, ts), m.apply(Op(PauliZ, ts), s)) == s
    && m.apply(Op(Hadamard, ts), m.apply(Op(Hadamard, ts), s)) == s
    && m.apply(Op(CX, ts), m.apply(Op(CX, ts), s)) == s
    && m.apply(Op(CY, ts), m.apply(Op(CY, ts), s)) == s
    && m.apply(Op(CZ, ts), m.apply(Op(CZ, ts), s)) == s
  }

  ghost predicate AnglesAdd<S>(m: Interpretation<S>, ts: seq<nat>, x: real, y: real, s: S) {
    && m.apply(Op(Rx(y), ts), m.apply(Op(Rx(x), ts), s)) == m.apply(Op(Rx(x + y), ts), s)
    && m.apply(Op(Ry(y), ts), m.apply(Op(Ry(x), ts), s)) == m.apply(Op(Ry(x + y), ts), s)
    && m.apply(Op(Rz(y), ts), m.apply(Op(Rz(x), ts), s)) == m.apply(Op(Rz(x + y), ts), s)
  }

  /** The laws spelled out: X, Y, Z, H, CX, CY and CZ square to the identity, and rotations about one
      axis on the same targets add. */
  lemma LawsSpelledOut<S(!new)>(m: Interpretation<S>)
    ensures Lawful(m) <==>
      && (forall ts, s :: SquaresVanish(m, ts, s))
      && (forall ts, x, y, s :: AnglesAdd(m, ts, x, y, s))
  {
    if Lawful(m) {
      forall ts, x, y, s
        ensures AnglesAdd(m, ts, x, y, s)
      {
        assert Fuse(Op(Rx(x), ts), Op(Rx(y), ts)) == Op(Rx(x + y), ts);
        assert Fuse(Op(Ry(x), ts), Op(Ry(y), ts)) == Op(Ry(x + y), ts);
        assert Fuse(Op(Rz(x), ts), Op(Rz(y), ts)) == Op(Rz(x + y), ts);
      }
    }
    if (forall ts, s :: SquaresVanish(m, ts, s)) && (forall ts, x, y, s :: AnglesAdd(m, ts, x, y, s)) {
      LawsSuffice(m);
    }
  }

  lemma LawsSuffice<S(!new)>(m: Interpretation<S>)
    requires forall ts, s :: SquaresVanish(m, ts, s)
    requires forall ts, x, y, s :: AnglesAdd(m, ts, x, y, s)
    ensures Lawful(m)
  {
    forall op: Op, s: S | SelfInverse(op.gate)
      ensures m.apply(op, m.apply(op, s)) == s
    {
      assert SquaresVanish(m, op.targets, s);
    }
    forall a: Op, b: Op, s: S | Fusable(a, b)
      ensures m.apply(b, m.apply(a, s)) == m.apply(Fuse(a, b), s)
    {
      assert AnglesAdd(m, a.targets, a.gate.angle, b.gate.angle, s);
    }
  }

  // Phase gates add their angles to the state; everything else does nothing.
  function Phases(): Interpretation<real> {
    Interpretation<real>.Interpretation((op: Op, r: real) => if op.gate.Phase? then r + op.gate.angle else r)
  }

  lemma PhasesLawful(p: Op, s: real)
    requires p.gate.Phase?
    ensures Lawful(Phases()) && Denote(Phases(), [p, p], s) == s + p.gate.angle + p.gate.angle
  {
    assert Init([p, p]) == [p] && Init([p]) == [];
    assert Denote(Phases(), [p], s) == s + p.gate.angle;
  }

  /** Phase gates are not to be cancelled: there is a lawful interpretation in which two equal ones
      differ from none, and no level drops them. */
  lemma PhasesStay(ts: seq<nat>, x: real, level: Level, s: real)
    requires x != 0.0
    ensures var pair := [Op(Phase(x), ts), Op(Phase(x), ts)];
      Lawful(Phases()) && Denote(Phases(), pair, s) != Denote(Phases(), [], s) && Optimized(level, pair) == pair
  {
    var p := Op(Phase(x), ts);
    PhasesLawful(p, s);
    CancelsExactly(p, p);
    MergesExactly(p, p);
    PipelineNormalises([p, p]);
    hide Basic, Merge, RemoveRedundant, Aggressive, Lawful, NoCancelling, NoFusable;
  }
}
