/**
  What the tolerance of the optimizer's last pass does to circuits that the other passes have not
  prepared: remove_redundant_gates in crates/quantum/src/circuit_optimizer.rs, run alone, drops two
  neighbouring rotations whose angles only nearly cancel.  Meanings are taken in interpretations in
  which, on top of the two laws, a rotation by zero does nothing.
 */
module CircuitTolerance {
  import opened CircuitOptimizer

  predicate IsZero(op: Op) {
    IsRotation(op.gate) && op.gate.angle == 0.0
  }

  ghost predicate ZeroIsIdentity<S(!new)>(m: Interpretation<S>) {
    forall op, s :: IsZero(op) ==> m.apply(op, s) == s
  }

  // The rotations that the pass loses: the nonzero sums of the pairs it drops.
  function Lost(gates: seq<Op>): seq<Op> {
    if |gates| < 2 then []
    else if Redundant(gates[0], gates[1]) then PairLost(gates[0], gates[1]) + Lost(gates[2..])
    else Lost(gates[1..])
  }

  function PairLost(a: Op, b: Op): seq<Op> {
    if Fusable(a, b) && !IsZero(Fuse(a, b)) then [Fuse(a, b)] else []
  }

  lemma {:induction false} DenoteConcat<S>(m: Interpretation<S>, a: seq<Op>, b: seq<Op>, s: S)
    ensures Denote(m, a + b, s) == Denote(m, b, Denote(m, a, s))
  {
    if b == [] {
      assert a + b == a;
    } else {
      assert Init(a + b) == a + Init(b);
      DenoteConcat(m, a, Init(b), s);
    }
  }

  lemma DenoteTwo<S>(m: Interpretation<S>, a: Op, b: Op, s: S)
    ensures Denote(m, [a], s) == m.apply(a, s)
    ensures Denote(m, [a, b], s) == m.apply(b, m.apply(a, s))
  {
    assert Init([a]) == [] && Init([a, b]) == [a];
  }

  /** When the pass loses nothing, it preserves the meaning of the circuit. */
  lemma {:induction false} NothingLostKeepsMeaning<S(!new)>(m: Interpretation<S>, gates: seq<Op>, s: S)
    requires Lawful(m) && ZeroIsIdentity(m) && Lost(gates) == []
    ensures Denote(m, RemoveRedundant(gates), s) == Denote(m, gates, s)
  {
    if |gates| >= 2 {
      var a, b := gates[0], gates[1];
      if Redundant(a, b) {
        assert gates == [a, b] + gates[2..];
        DenoteConcat(m, [a, b], gates[2..], s);
        DenoteTwo(m, a, b, s);
        assert m.apply(b, m.apply(a, s)) == s;
        NothingLostKeepsMeaning(m, gates[2..], s);
      } else {
        assert gates == [a] + gates[1..];
        DenoteConcat(m, [a], gates[1..], s);
        DenoteConcat(m, [a], RemoveRedundant(gates[1..]), s);
        NothingLostKeepsMeaning(m, gates[1..], Denote(m, [a], s));
      }
    }
  }

  // ----- Total rotation about one axis -----

  // The state is an angle, and exactly the rotations like axis add to it.
  function Turning(axis: Op): Interpretation<real> {
    Interpretation<real>.Interpretation((op: Op, r: real) => if Fusable(axis, op) then r + op.gate.angle else r)
  }

  lemma TurningLawful(axis: Op)
    ensures Lawful(Turning(axis)) && ZeroIsIdentity(Turning(axis))
  {
  }

  // The sum of the angles of the rotations like axis.
  function Total(axis: Op, gates: seq<Op>): real {
    if gates == [] then 0.0
    else (if Fusable(axis, gates[0]) then gates[0].gate.angle else 0.0) + Total(axis, gates[1..])
  }

  lemma {:induction false} TotalConcat(axis: Op, a: seq<Op>, b: seq<Op>)
    ensures Total(axis, a + b) == Total(axis, a) + Total(axis, b)
  {
    if a == [] {
      assert a + b == b;
    } else {
      assert (a + b)[1..] == a[1..] + b;
      TotalConcat(axis, a[1..], b);
    }
  }

  lemma TotalOfPair(axis: Op, a: Op, b: Op)
    requires Redundant(a, b)
    ensures Total(axis, [a, b]) == Total(axis, PairLost(a, b))
  {
    assert [a, b][1..] == [b] && [b][1..] == [];
  }

  lemma {:induction false} TurningDenotes(axis: Op, gates: seq<Op>, r: real)
    ensures Denote(Turning(axis), gates, r) == r + Total(axis, gates)
  {
    if gates != [] {
      var a, rest := gates[0], gates[1..];
      assert gates == [a] + rest;
      DenoteConcat(Turning(axis), [a], rest, r);
      DenoteTwo(Turning(axis), a, a, r);
      TurningDenotes(axis, rest, Denote(Turning(axis), [a], r));
    }
  }

  /** About every axis, the rotations removed add up to those lost. */
  lemma {:induction false} TotalLost(axis: Op, gates: seq<Op>)
    ensures Total(axis, gates) == Total(axis, RemoveRedundant(gates)) + Total(axis, Lost(gates))
  {
    if |gates| >= 2 {
      var a, b := gates[0], gates[1];
      if Redundant(a, b) {
        assert gates == [a, b] + gates[2..];
        TotalConcat(axis, [a, b], gates[2..]);
        TotalOfPair(axis, a, b);
        TotalConcat(axis, PairLost(a, b), Lost(gates[2..]));
        TotalLost(axis, gates[2..]);
      } else {
        assert gates == [a] + gates[1..];
        TotalConcat(axis, [a], gates[1..]);
        TotalConcat(axis, [a], RemoveRedundant(gates[1..]));
        TotalLost(axis, gates[1..]);
      }
    }
  }

  /** When what is lost about some axis does not add up to zero, the meaning changes. */
  lemma LossShows(axis: Op, gates: seq<Op>, r: real)
    requires Total(axis, Lost(gates)) != 0.0
    ensures Lawful(Turning(axis)) && ZeroIsIdentity(Turning(axis))
    ensures Denote(Turning(axis), RemoveRedundant(gates), r) != Denote(Turning(axis), gates, r)
  {
    TurningLawful(axis);
    TurningDenotes(axis, gates, r);
    TurningDenotes(axis, RemoveRedundant(gates), r);
    TotalLost(axis, gates);
  }

  // ----- Normal forms without zero rotations -----

  ghost predicate Settled(s: seq<Op>) {
    Normal(s) && forall i :: 0 <= i < |s| ==> !IsZero(s[i])
  }

  type SettledForm = s: seq<Op> | Settled(s) witness []

  // Appending a gate to a settled form, by the two laws and the identity of zero rotations.
  function SettleStep(s: seq<Op>, op: Op): seq<Op> {
    if IsZero(op) then s
    else if s != [] && Cancels(Last(s), op) then Init(s)
    else if s != [] && Fusable(Last(s), op) && IsZero(Fuse(Last(s), op)) then Init(s)
    else MergeStep(s, op)
  }

  function Settle(gates: seq<Op>): seq<Op> {
    if gates == [] then [] else SettleStep(Settle(Init(gates)), Last(gates))
  }

  lemma SettleStepSettled(s: seq<Op>, op: Op)
    requires Settled(s)
    ensures Settled(SettleStep(s, op))
  {
    if s != [] && !Cancels(Last(s), op) && Fusable(Last(s), op) && |s| > 1 {
      assert !Fusable(s[|s| - 2], s[|s| - 1]) && !Cancels(s[|s| - 2], s[|s| - 1]);
    }
  }

  function Append(s: SettledForm, op: Op): SettledForm {
    SettleStepSettled(s, op);
    SettleStep(s, op)
  }

  // The states are the settled forms and each gate appends itself.
  function Settling(): Interpretation<SettledForm> {
    Interpretation<SettledForm>.Interpretation((op: Op, s: SettledForm) => Append(s, op))
  }

  lemma AppendCancels(s: SettledForm, op: Op)
    requires SelfInverse(op.gate)
    ensures Append(Append(s, op), op) == s
  {
    if s != [] && Cancels(Last(s), op) {
      InitLast(s);
      assert |s| > 1 ==> !Cancels(s[|s| - 2], s[|s| - 1]);
    } else {
      InitSnoc(s, op);
    }
  }

  lemma FuseAngles(a: Op, b: Op)
    requires Fusable(a, b)
    ensures IsRotation(Fuse(a, b).gate) && Fuse(a, b).gate.angle == a.gate.angle + b.gate.angle
    ensures IsZero(a) ==> Fuse(a, b) == b
    ensures IsZero(b) ==> Fuse(a, b) == a
  {
  }

  lemma FuseThree(l: Op, a: Op, b: Op)
    requires Fusable(l, a) && Fusable(a, b)
    ensures Fusable(l, Fuse(a, b)) && Fusable(Fuse(l, a), b) && Fuse(l, Fuse(a, b)) == Fuse(Fuse(l, a), b)
    ensures IsZero(Fuse(l, a)) ==> Fuse(l, Fuse(a, b)) == b && (IsZero(Fuse(a, b)) ==> b == l)
    ensures IsZero(Fuse(a, b)) ==> Fuse(Fuse(l, a), b) == l
  {
  }

  // Appending a rotation to a sequence that ends in one about the same axis, and to any other.
  lemma StepFuses(t: seq<Op>, l: Op, op: Op)
    requires Fusable(l, op) && !IsZero(op)
    ensures SettleStep(t + [l], op) == if IsZero(Fuse(l, op)) then t else t + [Fuse(l, op)]
  {
    InitSnoc(t, l);
    hide Fuse;
  }

  lemma StepAppends(s: seq<Op>, op: Op)
    requires IsRotation(op.gate) && !IsZero(op) && (s == [] || !Fusable(Last(s), op))
    ensures SettleStep(s, op) == s + [op]
  {
  }

  lemma FuseBehind(t: seq<Op>, l: Op, a: Op, b: Op)
    requires Fusable(l, a) && Fusable(a, b) && !IsZero(l) && !IsZero(a) && !IsZero(b)
    requires t == [] || !Fusable(Last(t), l)
    ensures SettleStep(SettleStep(t + [l], a), b) == SettleStep(t + [l], Fuse(a, b))
  {
    assert t == [] || !Fusable(Last(t), b);
    var f, ab := Fuse(l, a), Fuse(a, b);
    FuseThree(l, a, b);
    StepFuses(t, l, a);
    hide SettleStep;
    if IsZero(f) {
      StepAppends(t, b);
    } else {
      StepFuses(t, f, b);
    }
    if !IsZero(ab) {
      StepFuses(t, l, ab);
    } else {
      ZeroStays(t + [l], ab);
    }
  }

  lemma ZeroStays(s: seq<Op>, op: Op)
    requires IsZero(op)
    ensures SettleStep(s, op) == s
  {
  }

  lemma FuseFresh(s: seq<Op>, a: Op, b: Op)
    requires s == [] || !Fusable(Last(s), a)
    requires Fusable(a, b) && !IsZero(a) && !IsZero(b)
    ensures SettleStep(SettleStep(s, a), b) == SettleStep(s, Fuse(a, b))
  {
    var ab := Fuse(a, b);
    FuseAngles(a, b);
    assert s == [] || !Fusable(Last(s), ab);
    StepAppends(s, a);
    StepFuses(s, a, b);
    hide SettleStep;
    if !IsZero(ab) {
      StepAppends(s, ab);
    } else {
      ZeroStays(s, ab);
    }
  }

  lemma AppendFuses(s: SettledForm, a: Op, b: Op)
    requires Fusable(a, b)
    ensures Append(Append(s, a), b) == Append(s, Fuse(a, b))
  {
    FuseAngles(a, b);
    hide SettleStep, Fuse;
    if IsZero(a) {
      ZeroStays(s, a);
    } else if IsZero(b) {
      ZeroStays(Append(s, a), b);
    } else if s != [] && Fusable(Last(s), a) {
      InitLast(s);
      assert Init(s) != [] ==> !Fusable(s[|s| - 2], s[|s| - 1]);
      FuseBehind(Init(s), Last(s), a, b);
    } else {
      FuseFresh(s, a, b);
    }
  }

  lemma SettlingLawful()
    ensures Lawful(Settling()) && ZeroIsIdentity(Settling())
  {
    forall op: Op, s: SettledForm | SelfInverse(op.gate)
      ensures Settling().apply(op, Settling().apply(op, s)) == s
    {
      AppendCancels(s, op);
    }
    forall a: Op, b: Op, s: SettledForm | Fusable(a, b)
      ensures Settling().apply(b, Settling().apply(a, s)) == Settling().apply(Fuse(a, b), s)
    {
      AppendFuses(s, a, b);
    }
  }

  lemma {:induction false} SettlingDenotes(gates: seq<Op>)
    ensures Denote(Settling(), gates, []) == Settle(gates)
  {
    if gates != [] {
      SettlingDenotes(Init(gates));
    }
  }

  lemma SettleStepMeaning<S(!new)>(m: Interpretation<S>, buffer: seq<Op>, op: Op, s: S)
    requires Lawful(m) && ZeroIsIdentity(m)
    ensures Denote(m, SettleStep(buffer, op), s) == m.apply(op, Denote(m, buffer, s))
  {
    if IsZero(op) {
    } else if buffer != [] && Cancels(Last(buffer), op) {
    } else if buffer != [] && Fusable(Last(buffer), op) && IsZero(Fuse(Last(buffer), op)) {
      var before := Denote(m, Init(buffer), s);
      assert m.apply(op, m.apply(Last(buffer), before)) == m.apply(Fuse(Last(buffer), op), before);
    } else {
      MergeStepMeaning(m, buffer, op, s);
    }
  }

  lemma {:induction false} SettleMeaning<S(!new)>(m: Interpretation<S>, gates: seq<Op>, s: S)
    requires Lawful(m) && ZeroIsIdentity(m)
    ensures Denote(m, Settle(gates), s) == Denote(m, gates, s)
  {
    if gates != [] {
      SettleMeaning(m, Init(gates), s);
      SettleStepMeaning(m, Settle(Init(gates)), Last(gates), s);
    }
  }

  // ----- Exactly when the pass alone preserves meaning -----

  ghost predicate Harmless(gates: seq<Op>) {
    Settle(RemoveRedundant(gates)) == Settle(gates)
  }

  /** The pass preserves the meaning of a circuit under every lawful interpretation in which zero
      rotations do nothing if and only if settling what it leaves gives the settled circuit. */
  lemma ToleranceExact<S(!new)>(m: Interpretation<S>, gates: seq<Op>, s: S)
    requires Lawful(m) && ZeroIsIdentity(m)
    ensures Harmless(gates) ==> Denote(m, RemoveRedundant(gates), s) == Denote(m, gates, s)
    ensures Lawful(Settling()) && ZeroIsIdentity(Settling())
    ensures Denote(Settling(), RemoveRedundant(gates), []) == Denote(Settling(), gates, []) <==> Harmless(gates)
  {
    SettleMeaning(m, gates, s);
    SettleMeaning(m, RemoveRedundant(gates), s);
    SettlingLawful();
    SettlingDenotes(gates);
    SettlingDenotes(RemoveRedundant(gates));
  }

  /** That is so when the sums of all rotation pairs dropped are exactly zero, and not so when one is
      not, or several whose angles about some axis do not add up to zero. */
  lemma LossExact(gates: seq<Op>)
    ensures Lost(gates) == [] ==> Harmless(gates)
    ensures |Lost(gates)| == 1 ==> !Harmless(gates)
    ensures (exists axis :: Total(axis, Lost(gates)) != 0.0) ==> !Harmless(gates)
  {
    if Lost(gates) == [] {
      SettlingLawful();
      NothingLostKeepsMeaning(Settling(), gates, []);
      ToleranceExact(Settling(), gates, []);
    }
    if |Lost(gates)| == 1 {
      LostOnce(gates);
    }
    if axis :| Total(axis, Lost(gates)) != 0.0 {
      LossShows(axis, gates, 0.0);
      ToleranceExact(Turning(axis), gates, 0.0);
    }
  }

  lemma LostOnce(gates: seq<Op>)
    requires |Lost(gates)| == 1
    ensures Total(Lost(gates)[0], Lost(gates)) != 0.0
  {
    LostNonzero(gates);
    assert Lost(gates)[1..] == [];
  }

  lemma {:induction false} LostNonzero(gates: seq<Op>)
    ensures forall op :: op in Lost(gates) ==> IsRotation(op.gate) && !IsZero(op)
  {
    if |gates| >= 2 {
      if Redundant(gates[0], gates[1]) {
        LostNonzero(gates[2..]);
      } else {
        LostNonzero(gates[1..]);
      }
    }
  }

  /** Run alone, the pass may change the meaning, because of the tolerance only: the two rotations
      it drops here nearly cancel.  Two such losses can make up for each other. */
  lemma ToleranceAloneIsUnsound()
    ensures var gates := [Op(Rx(TOLERANCE / 2.0), [0]), Op(Rx(0.0), [0])];
      Lost(gates) == [Op(Rx(TOLERANCE / 2.0), [0])] && !Harmless(gates)
    ensures var e := TOLERANCE / 2.0;
      var gates := [Op(Rx(e), [0]), Op(Rx(0.0), [0]), Op(Rx(-e), [0]), Op(Rx(0.0), [0])];
      |Lost(gates)| == 2 && Harmless(gates)
  {
    var e := TOLERANCE / 2.0;
    var a, z, b := Op(Rx(e), [0]), Op(Rx(0.0), [0]), Op(Rx(-e), [0]);
    var one, two := [a, z], [a, z, b, z];
    assert one[2..] == [] && two[2..] == [b, z] && [b, z][2..] == [];
    assert Lost(one) == [a] + Lost([]);
    assert Lost([b, z]) == [b] + Lost([]);
    LossExact(one);
    assert RemoveRedundant(two) == RemoveRedundant([b, z]) == RemoveRedundant([]) == [];
    assert Init(two) == [a, z, b] && Init([a, z, b]) == [a, z] && Init([a, z]) == [a] && Init([a]) == [];
    assert Settle([]) == [] && Settle([a]) == [a] && Settle([a, z]) == [a] && Settle([a, z, b]) == [] && Settle(two) == [];
  }
}
