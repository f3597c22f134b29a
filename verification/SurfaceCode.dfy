/**
  The stabilizers of the surface code (SurfaceCode::stabilize_circuit in
  crates/quantum/src/error_correction.rs).
 */
module SurfaceCode {
  import opened Arithmetic

  datatype Pauli = I | X | Y | Z

  datatype Stabilizer = Stabilizer(pauli: seq<Pauli>, eigenvalue: int)

  // Cell (r, c) is (i, j) or next to it.
  predicate InCross(i: int, j: int, r: int, c: int) {
    (r == i && (c == j || c == j + 1 || c == j - 1)) || (c == j && (r == i + 1 || r == i - 1))
  }

  // The operator p on the cross around (i, j), on a d-by-d grid stored row by row.
  function Cross(d: nat, i: int, j: int, p: Pauli): (s: seq<Pauli>)
    ensures |s| == d * d
  {
    seq(d * d, q requires 0 <= q < d * d => if d > 0 && InCross(i, j, q / d, q % d) then p else I)
  }

  // The cells (i, c) with c < n whose coordinates add up to the given parity.
  function Row(parity: nat, i: nat, n: nat): (s: seq<(nat, nat)>)
    ensures forall k :: 0 <= k < |s| ==> s[k].0 == i && s[k].1 < n && (s[k].0 + s[k].1) % 2 == parity
  {
    if n == 0 then [] else Row(parity, i, n - 1) + (if (i + n - 1) % 2 == parity then [(i, n - 1)] else [])
  }

  // The same for the first n rows.
  function Cells(d: nat, parity: nat, n: nat): (s: seq<(nat, nat)>)
    ensures forall k :: 0 <= k < |s| ==> s[k].0 < n && s[k].1 < d && (s[k].0 + s[k].1) % 2 == parity
  {
    if n == 0 then [] else Cells(d, parity, n - 1) + Row(parity, n - 1, d)
  }

  function Crosses(d: nat, cells: seq<(nat, nat)>, p: Pauli): (s: seq<Stabilizer>)
    ensures |s| == |cells| && forall k :: 0 <= k < |s| ==> s[k] == Stabilizer(Cross(d, cells[k].0, cells[k].1, p), 1)
  {
    if cells == [] then []
    else
      var c := cells[|cells| - 1];
      Crosses(d, cells[..|cells| - 1], p) + [Stabilizer(Cross(d, c.0, c.1, p), 1)]
  }

  function Stabilizers(d: nat): seq<Stabilizer> {
    Crosses(d, Cells(d, 0, d), X) + Crosses(d, Cells(d, 1, d), Z)
  }

  // ----- The circuit as the code builds it -----

  method StabilizeCircuit(distance: nat) returns (stabilizers: seq<Stabilizer>)
    ensures stabilizers == Stabilizers(distance)
  {
    var xs := Half(distance, 0, X);
    var zs := Half(distance, 1, Z);
    stabilizers := xs + zs;
  }

  // One of the two double loops.
  method Half(distance: nat, parity: nat, p: Pauli) returns (s: seq<Stabilizer>)
    ensures s == Crosses(distance, Cells(distance, parity, distance), p)
  {
    hide Cross, Row, Cells, Crosses;
    s := [];
    FirstCell(distance, parity, 0);
    NoCrosses(distance, p);
    for i := 0 to distance
      invariant s == Crosses(distance, Cells(distance, parity, i), p)
    {
      ghost var above := Cells(distance, parity, i);
      FirstCell(distance, parity, i);
      for j := 0 to distance
        invariant s == Crosses(distance, above + Row(parity, i, j), p)
      {
        NextCell(distance, above, parity, i, j, p);
        if (i + j) % 2 == parity {
          var pauli := CrossVector(distance, i, j, p);
          s := s + [Stabilizer(pauli, 1)];
        }
      }
    }
  }

  lemma NoCrosses(d: nat, p: Pauli)
    ensures Crosses(d, [], p) == []
  {
  }

  lemma FirstCell(d: nat, parity: nat, i: nat)
    ensures Cells(d, parity, 0) == []
    ensures Cells(d, parity, i) + Row(parity, i, 0) == Cells(d, parity, i)
    ensures Cells(d, parity, i) + Row(parity, i, d) == Cells(d, parity, i + 1)
  {
  }

  lemma NextCell(d: nat, above: seq<(nat, nat)>, parity: nat, i: nat, j: nat, p: Pauli)
    ensures Crosses(d, above + Row(parity, i, j + 1), p) ==
      if (i + j) % 2 == parity then Crosses(d, above + Row(parity, i, j), p) + [Stabilizer(Cross(d, i, j, p), 1)]
      else Crosses(d, above + Row(parity, i, j), p)
  {
    hide Cross;
    var cells := above + Row(parity, i, j);
    if (i + j) % 2 == parity {
      assert above + Row(parity, i, j + 1) == cells + [(i, j)];
      assert (cells + [(i, j)])[..|cells + [(i, j)]| - 1] == cells;
    } else {
      assert above + Row(parity, i, j + 1) == cells;
    }
  }

  lemma RowFits(i: nat, d: nat)
    requires i < d
    ensures (i + 1) * d == i * d + d
    ensures i * d + d <= d * d
  {
    NonNegative(d - (i + 1), d);
    assert (d - (i + 1)) * d == d * d - (i + 1) * d;
  }

  lemma NonNegative(a: int, b: int)
    requires a >= 0 && b >= 0
    ensures a * b >= 0
  {
  }

  method CrossVector(distance: nat, i: nat, j: nat, p: Pauli) returns (v: seq<Pauli>)
    requires i < distance && j < distance
    ensures v == Cross(distance, i, j, p)
  {
    Neighbours(distance, i, j);
    ghost var d := distance;
    var pauli := new Pauli[distance * distance](_ => I);
    var idx := i * distance + j;
    pauli[idx] := p;
    if i > 0 {
      pauli[(i - 1) * distance + j] := p;
    }
    if i < distance - 1 {
      pauli[(i + 1) * distance + j] := p;
    }
    if j > 0 {
      pauli[i * distance + (j - 1)] := p;
    }
    if j < distance - 1 {
      pauli[i * distance + (j + 1)] := p;
    }
    WrittenIsCross(pauli[..], distance, i, j, idx, p);
    v := pauli[..];
  }

  lemma Neighbours(d: nat, i: nat, j: nat)
    requires i < d && j < d
    ensures 0 <= i * d + j < d * d
    ensures (i - 1) * d + j == i * d + j - d && (i + 1) * d + j == i * d + j + d
    ensures i > 0 ==> i * d + j - d >= 0
    ensures i < d - 1 ==> i * d + j + d < d * d
  {
    RowFits(i, d);
    NonNegative(i, d);
    assert (i - 1) * d == i * d - d;
    if i > 0 {
      NonNegative(i - 1, d);
    }
    if i < d - 1 {
      RowFits(i + 1, d);
    }
  }

  // Position q is that of idx or of a neighbour of idx in the grid.
  predicate Touches(d: nat, i: nat, j: nat, idx: int, q: int) {
    q == idx || (i > 0 && q == idx - d) || (i < d - 1 && q == idx + d) || (j > 0 && q == idx - 1) || (j < d - 1 && q == idx + 1)
  }

  lemma WrittenIsCross(v: seq<Pauli>, d: nat, i: nat, j: nat, idx: nat, p: Pauli)
    requires i < d && j < d && idx == i * d + j && |v| == d * d
    requires forall q :: 0 <= q < |v| ==> v[q] == if Touches(d, i, j, idx, q) then p else I
    ensures v == Cross(d, i, j, p)
  {
    forall q | 0 <= q < |v|
      ensures v[q] == Cross(d, i, j, p)[q]
    {
      Touched(d, i, j, q);
    }
  }

  // The positions the code writes are those of the cross.
  lemma Touched(d: nat, i: nat, j: nat, q: nat)
    requires i < d && j < d && q < d * d
    ensures InCross(i, j, q / d, q % d) <==> Touches(d, i, j, i * d + j, q)
  {
    Neighbours(d, i, j);
    RowInRange(d, q);
    SameCell(d, q, i, j);
    SameCell(d, q, i - 1, j);
    SameCell(d, q, i + 1, j);
    if j > 0 { SameCell(d, q, i, j - 1); }
    if j < d - 1 { SameCell(d, q, i, j + 1); }
  }

  lemma RowInRange(d: nat, q: nat)
    requires q < d * d
    ensures 0 <= q / d < d && 0 <= q % d < d
  {
    var r, c := q / d, q % d;
    assert q == r * d + c;
    assert r >= d ==> (r - d) * d == r * d - d * d;
    if r >= d {
      NonNegative(r - d, d);
    }
  }

  lemma SameCell(d: nat, q: nat, r: int, c: int)
    requires 0 <= c < d
    ensures q == r * d + c <==> q / d == r && q % d == c
  {
    UniqueRemainder(r * d + c, d, r, c);
    assert q == (q / d) * d + q % d;
  }

  /** The operator acts on the cells at distance one at most, counted in steps along rows and columns. */
  lemma CrossAt(d: nat, i: nat, j: nat, p: Pauli, r: nat, c: nat)
    requires i < d && j < d && r < d && c < d
    ensures 0 <= r * d + c < d * d
    ensures Cross(d, i, j, p)[r * d + c] ==
      if (if r < i then i - r else r - i) + (if c < j then j - c else c - j) <= 1 then p else I
  {
    Neighbours(d, r, c);
    SameCell(d, r * d + c, r, c);
  }

  // ----- All stabilizers commute -----

  // The qubits on which two operators anticommute.
  ghost function Clashes(s: seq<Pauli>, t: seq<Pauli>): set<nat>
    requires |s| == |t|
  {
    set q | 0 <= q < |s| && s[q] != I && t[q] != I && s[q] != t[q]
  }

  ghost predicate Commute(s: seq<Pauli>, t: seq<Pauli>)
    requires |s| == |t|
  {
    |Clashes(s, t)| % 2 == 0
  }

  ghost predicate Adjacent(i: int, j: int, k: int, l: int) {
    InCross(i, j, k, l) && (i, j) != (k, l)
  }

  /** An X and a Z stabilizer share exactly the two centres when these are adjacent, and no qubit
      otherwise. */
  lemma CrossesOverlap(d: nat, i: nat, j: nat, k: nat, l: nat)
    requires i < d && j < d && k < d && l < d && (i + j) % 2 == 0 && (k + l) % 2 == 1
    ensures i * d + j < d * d && k * d + l < d * d && i * d + j != k * d + l
    ensures Clashes(Cross(d, i, j, X), Cross(d, k, l, Z))
      == if Adjacent(i, j, k, l) then {i * d + j, k * d + l} else {}
  {
    Neighbours(d, i, j);
    Neighbours(d, k, l);
    SameCell(d, i * d + j, i, j);
    SameCell(d, k * d + l, k, l);
    forall q | 0 <= q < d * d
      ensures InCross(i, j, q / d, q % d) && InCross(k, l, q / d, q % d) <==>
        Adjacent(i, j, k, l) && (q == i * d + j || q == k * d + l)
    {
      SameCell(d, q, i, j);
      SameCell(d, q, k, l);
      CommonCells(i, j, k, l, q / d, q % d);
    }
  }

  lemma CommonCells(i: nat, j: nat, k: nat, l: nat, r: int, c: int)
    requires (i + j) % 2 == 0 && (k + l) % 2 == 1
    ensures InCross(i, j, r, c) && InCross(k, l, r, c) <==>
      Adjacent(i, j, k, l) && ((r == i && c == j) || (r == k && c == l))
  {
  }

  lemma CrossesOfOneKind(d: nat, i: int, j: int, k: int, l: int, p: Pauli)
    ensures Clashes(Cross(d, i, j, p), Cross(d, k, l, p)) == {}
  {
  }

  lemma ClashesSymmetric(s: seq<Pauli>, t: seq<Pauli>)
    requires |s| == |t|
    ensures Clashes(s, t) == Clashes(t, s)
  {
  }

  /** Any two stabilizers of the code commute, overlapping in two qubits at most when of different
      kinds. */
  lemma StabilizersCommute(d: nat, a: nat, b: nat)
    requires a < |Stabilizers(d)| && b < |Stabilizers(d)|
    ensures |Stabilizers(d)[a].pauli| == |Stabilizers(d)[b].pauli| == d * d
    ensures Commute(Stabilizers(d)[a].pauli, Stabilizers(d)[b].pauli)
    ensures |Clashes(Stabilizers(d)[a].pauli, Stabilizers(d)[b].pauli)| in {0, 2}
  {
    hide Cross, Clashes, Crosses, Cells;
    var xs, zs := Cells(d, 0, d), Cells(d, 1, d);
    if a < |xs| && b < |xs| {
      CrossesOfOneKind(d, xs[a].0, xs[a].1, xs[b].0, xs[b].1, X);
    } else if a >= |xs| && b >= |xs| {
      var y, z := zs[a - |xs|], zs[b - |xs|];
      CrossesOfOneKind(d, y.0, y.1, z.0, z.1, Z);
    } else if a < |xs| {
      CrossesOverlap(d, xs[a].0, xs[a].1, zs[b - |xs|].0, zs[b - |xs|].1);
    } else {
      CrossesOverlap(d, xs[b].0, xs[b].1, zs[a - |xs|].0, zs[a - |xs|].1);
      ClashesSymmetric(Stabilizers(d)[a].pauli, Stabilizers(d)[b].pauli);
    }
  }

  // ----- One stabilizer per cell -----

  lemma {:induction false} RowSplits(i: nat, n: nat)
    ensures |Row(0, i, n)| + |Row(1, i, n)| == n
  {
    if n != 0 {
      RowSplits(i, n - 1);
    }
  }

  lemma {:induction false} CellsSplit(d: nat, n: nat)
    ensures |Cells(d, 0, n)| + |Cells(d, 1, n)| == n * d
  {
    if n != 0 {
      CellsSplit(d, n - 1);
      RowSplits(n - 1, d);
      assert n * d == (n - 1) * d + d;
    }
  }

  lemma {:induction false} RowLists(i: nat, j: nat, n: nat) returns (k: nat)
    requires j < n
    ensures k < |Row((i + j) % 2, i, n)| && Row((i + j) % 2, i, n)[k] == (i, j)
  {
    if j == n - 1 {
      k := |Row((i + j) % 2, i, n)| - 1;
    } else {
      k := RowLists(i, j, n - 1);
    }
  }

  lemma {:induction false} CellListed(d: nat, i: nat, j: nat, n: nat) returns (k: nat)
    requires j < d && i < n
    ensures k < |Cells(d, (i + j) % 2, n)| && Cells(d, (i + j) % 2, n)[k] == (i, j)
  {
    if i == n - 1 {
      k := RowLists(i, j, d);
      k := |Cells(d, (i + j) % 2, n - 1)| + k;
    } else {
      k := CellListed(d, i, j, n - 1);
    }
  }

  /** There are d * d stabilizers, one centred on each cell: X on even cells, Z on odd ones. */
  lemma OneStabilizerPerCell(d: nat, i: nat, j: nat)
    requires i < d && j < d
    ensures |Stabilizers(d)| == d * d
    ensures Stabilizer(Cross(d, i, j, if (i + j) % 2 == 0 then X else Z), 1) in Stabilizers(d)
  {
    hide Cross, Crosses, Cells;
    CellsSplit(d, d);
    var k := CellListed(d, i, j, d);
    var m := if (i + j) % 2 == 0 then k else |Cells(d, 0, d)| + k;
    assert Stabilizers(d)[m] == Stabilizer(Cross(d, i, j, if (i + j) % 2 == 0 then X else Z), 1);
  }

  // One cell comes before another row by row.
  ghost predicate Precedes(a: (nat, nat), b: (nat, nat)) {
    a.0 < b.0 || (a.0 == b.0 && a.1 < b.1)
  }

  lemma {:induction false} RowInOrder(parity: nat, i: nat, n: nat)
    ensures forall k, l :: 0 <= k < l < |Row(parity, i, n)| ==> Row(parity, i, n)[k].1 < Row(parity, i, n)[l].1
  {
    if n != 0 {
      RowInOrder(parity, i, n - 1);
    }
  }

  lemma {:induction false} CellsInOrder(d: nat, parity: nat, n: nat)
    ensures forall k, l :: 0 <= k < l < |Cells(d, parity, n)| ==> Precedes(Cells(d, parity, n)[k], Cells(d, parity, n)[l])
  {
    if n != 0 {
      CellsInOrder(d, parity, n - 1);
      RowInOrder(parity, n - 1, d);
      hide Row;
    }
  }

  /** First the X stabilizers, then the Z stabilizers, each in the order of their cells. */
  lemma StabilizersInOrder(d: nat, k: nat, l: nat)
    requires k < l < |Stabilizers(d)|
    ensures Kind(d, k) == Z ==> Kind(d, l) == Z
    ensures Kind(d, k) == Kind(d, l) ==>
      var (i, j), (r, c) := Centre(d, k), Centre(d, l); i < r || (i == r && j < c)
  {
    CellsInOrder(d, 0, d);
    CellsInOrder(d, 1, d);
    hide Cells, Crosses;
  }

  // ----- All stabilizers are independent -----

  // The chosen stabilizers that act as p on a qubit.
  ghost function Acting(d: nat, chosen: set<nat>, q: nat, p: Pauli): set<nat>
    requires q < d * d && forall k :: k in chosen ==> k < |Stabilizers(d)|
  {
    set k | k in chosen && q < |Stabilizers(d)[k].pauli| && Stabilizers(d)[k].pauli[q] == p
  }

  // Up to its sign, the product of the chosen stabilizers is the identity: on every qubit an even
  // number of them acts as X, and an even number as Z.
  ghost predicate ProductIsIdentity(d: nat, chosen: set<nat>)
    requires forall k :: k in chosen ==> k < |Stabilizers(d)|
  {
    forall q: nat :: q < d * d ==> |Acting(d, chosen, q, X)| % 2 == 0 && |Acting(d, chosen, q, Z)| % 2 == 0
  }

  ghost predicate DistinctCells(cells: seq<(nat, nat)>) {
    forall k, l :: 0 <= k < l < |cells| ==> cells[k] != cells[l]
  }

  lemma {:induction false} RowDistinct(parity: nat, i: nat, n: nat)
    ensures DistinctCells(Row(parity, i, n))
  {
    if n != 0 {
      RowDistinct(parity, i, n - 1);
    }
  }

  lemma {:induction false} CellsDistinct(d: nat, parity: nat, n: nat)
    ensures DistinctCells(Cells(d, parity, n))
  {
    if n != 0 {
      CellsDistinct(d, parity, n - 1);
      RowDistinct(parity, n - 1, d);
      hide Row;
    }
  }

  // The cell a stabilizer is centred on, and its operator.
  function Centre(d: nat, k: nat): (nat, nat)
    requires k < |Stabilizers(d)|
  {
    var xs, zs := Cells(d, 0, d), Cells(d, 1, d);
    if k < |xs| then xs[k] else zs[k - |xs|]
  }

  function Kind(d: nat, k: nat): Pauli
    requires k < |Stabilizers(d)|
  {
    if k < |Cells(d, 0, d)| then X else Z
  }

  lemma StabilizerAt(d: nat, k: nat)
    requires k < |Stabilizers(d)|
    ensures var (i, j) := Centre(d, k);
      && i < d && j < d && (i + j) % 2 == (if Kind(d, k) == X then 0 else 1)
      && Stabilizers(d)[k].pauli == Cross(d, i, j, Kind(d, k))
  {
    hide Cross, Crosses, Cells;
  }

  lemma CentresDistinct(d: nat, k: nat, l: nat)
    requires k < |Stabilizers(d)| && l < |Stabilizers(d)| && Centre(d, k) == Centre(d, l) && Kind(d, k) == Kind(d, l)
    ensures k == l
  {
    CellsDistinct(d, 0, d);
    CellsDistinct(d, 1, d);
    hide Cells, Crosses;
  }

  // A cross meets the cells of its own parity in its centre only.
  lemma OnlyOwnCentre(d: nat, i: nat, j: nat, r: nat, c: nat, p: Pauli)
    requires i < d && j < d && r < d && c < d && (i + j) % 2 == (r + c) % 2 && p != I
    ensures r * d + c < d * d && (Cross(d, i, j, p)[r * d + c] == p <==> (i, j) == (r, c))
  {
    Neighbours(d, r, c);
    SameCell(d, r * d + c, r, c);
  }

  /** No product of stabilizers, except of none, is the identity: at the centre of each of them no
      other one of its kind acts.  So the d * d commuting stabilizers on d * d qubits are
      independent, and leave no logical qubit, for every distance. */
  lemma StabilizersIndependent(d: nat, chosen: set<nat>)
    requires forall k :: k in chosen ==> k < |Stabilizers(d)|
    ensures ProductIsIdentity(d, chosen) <==> chosen == {}
    ensures chosen == {} <==>
      forall q: nat :: q < d * d ==> |Acting(d, chosen, q, X)| % 2 == 0 && |Acting(d, chosen, q, Z)| % 2 == 0
  {
    hide Stabilizers, Cross, Centre, Kind;
    if chosen != {} {
      var k :| k in chosen;
      StabilizerAt(d, k);
      KindIsXOrZ(d, k);
      var (r, c) := Centre(d, k);
      var p := Kind(d, k);
      OnlyOwnCentre(d, r, c, r, c, p);
      var q := r * d + c;
      forall l | l in chosen
        ensures l in Acting(d, chosen, q, p) <==> l == k
      {
        ActsAtCentre(d, k, l);
      }
      assert Acting(d, chosen, q, p) == {k};
    } else {
      forall q: nat | q < d * d
        ensures |Acting(d, chosen, q, X)| == 0 && |Acting(d, chosen, q, Z)| == 0
      {
        assert Acting(d, chosen, q, X) == {} && Acting(d, chosen, q, Z) == {};
      }
    }
  }

  lemma KindIsXOrZ(d: nat, k: nat)
    requires k < |Stabilizers(d)|
    ensures Kind(d, k) == X || Kind(d, k) == Z
  {
  }

  lemma ActsAtCentre(d: nat, k: nat, l: nat)
    requires k < |Stabilizers(d)| && l < |Stabilizers(d)|
    ensures var (r, c) := Centre(d, k); var q := r * d + c;
      && q < |Stabilizers(d)[l].pauli|
      && (Stabilizers(d)[l].pauli[q] == Kind(d, k) <==> l == k)
  {
    KindIsXOrZ(d, k);
    KindIsXOrZ(d, l);
    StabilizerAt(d, k);
    StabilizerAt(d, l);
    var (r, c) := Centre(d, k);
    var (i, j) := Centre(d, l);
    Neighbours(d, r, c);
    if Kind(d, l) == Kind(d, k) {
      OnlyOwnCentre(d, i, j, r, c, Kind(d, k));
      if (i, j) == (r, c) {
        CentresDistinct(d, k, l);
      }
    } else {
      CrossHasKind(d, i, j, Kind(d, l), r * d + c);
    }
  }

  lemma CrossHasKind(d: nat, i: nat, j: nat, p: Pauli, q: nat)
    requires q < d * d
    ensures Cross(d, i, j, p)[q] in {p, I}
  {
  }
}
