/**
  The weighted authority set (crates/governance/src/authority.rs).  Weights are unbounded here.
 */
module Authority {
  import opened Wrappers

  datatype Status = Active | Inactive | Suspended | Retired

  datatype Node = Node(id: nat, did: string, status: Status, weight: nat)

  datatype Error = NodeNotFound | AlreadyRegistered | InsufficientNodes | SetFull

  // The weight of the active nodes whose DID is among the signers.
  ghost function SignedWeight(nodes: seq<Node>, signers: iset<string>): nat {
    if nodes == [] then 0
    else SignedWeight(nodes[..|nodes| - 1], signers) + Share(nodes[|nodes| - 1], signers)
  }

  ghost function Share(node: Node, signers: iset<string>): nat {
    if node.status == Active && node.did in signers then node.weight else 0
  }

  function TotalWeight(nodes: seq<Node>): nat {
    if nodes == [] then 0
    else
      var n := nodes[|nodes| - 1];
      TotalWeight(nodes[..|nodes| - 1]) + (if n.status == Active then n.weight else 0)
  }

  predicate QuorumReached(total: nat, signed: nat) {
    total > 0 && 3 * signed > 2 * total
  }

  function Position(nodes: seq<Node>, id: nat): (p: int)
    ensures -1 <= p < |nodes|
    ensures p == -1 ==> forall i :: 0 <= i < |nodes| ==> nodes[i].id != id
    ensures p >= 0 ==> nodes[p].id == id && forall i :: 0 <= i < p ==> nodes[i].id != id
  {
    if nodes == [] then -1
    else
      var p := Position(nodes[..|nodes| - 1], id);
      if p >= 0 then p else if nodes[|nodes| - 1].id == id then |nodes| - 1 else -1
  }

  function Removed(nodes: seq<Node>, p: nat): seq<Node>
    requires p < |nodes|
  {
    nodes[..p] + nodes[p + 1..]
  }

  ghost predicate DistinctDids(nodes: seq<Node>) {
    forall i, j :: 0 <= i < j < |nodes| ==> nodes[i].did != nodes[j].did
  }

  lemma RemovedKeepsDistinct(nodes: seq<Node>, p: nat)
    requires p < |nodes|
    ensures |Removed(nodes, p)| == |nodes| - 1
    ensures DistinctDids(nodes) ==> DistinctDids(Removed(nodes, p))
  {
    var left := Removed(nodes, p);
    forall i | 0 <= i < |left|
      ensures left[i] == nodes[if i < p then i else i + 1]
    {
    }
  }

  predicate HasDid(nodes: seq<Node>, did: string) {
    exists i :: 0 <= i < |nodes| && nodes[i].did == did
  }

  /** One node more keeps DIDs distinct exactly when none has its DID. */
  lemma DistinctSnoc(nodes: seq<Node>, n: Node)
    ensures DistinctDids(nodes + [n]) <==> DistinctDids(nodes) && !HasDid(nodes, n.did)
    ensures DistinctDids([]) && !HasDid([], n.did)
  {
    var all := nodes + [n];
    assert all[|nodes|] == n;
    assert forall i :: 0 <= i < |nodes| ==> all[i] == nodes[i];
  }

  class AuthoritySet {
    var nodes: seq<Node>
    const minNodes: nat
    const maxNodes: nat
    var epoch: nat

    constructor (minNodes: nat, maxNodes: nat)
      ensures this.minNodes == minNodes && this.maxNodes == maxNodes && nodes == [] && epoch == 0 && Valid()
    {
      this.minNodes := minNodes;
      this.maxNodes := maxNodes;
      nodes := [];
      epoch := 0;
    }

    ghost predicate Valid()
      reads this
    {
      |nodes| <= maxNodes && DistinctDids(nodes)
    }

    method Register(node: Node) returns (r: Result<(), Error>)
      requires Valid()
      modifies this`nodes
      ensures Valid()
      ensures r == if |old(nodes)| >= maxNodes then Failure(SetFull)
                   else if HasDid(old(nodes), node.did) then Failure(AlreadyRegistered) else Success(())
      ensures nodes == if r.Success? then old(nodes) + [node] else old(nodes)
    {
      if |nodes| >= maxNodes {
        return Failure(SetFull);
      }
      if HasDid(nodes, node.did) {
        return Failure(AlreadyRegistered);
      }
      nodes := nodes + [node];
      return Success(());
    }

    method Remove(id: nat) returns (r: Result<(), Error>)
      requires Valid()
      modifies this`nodes
      ensures Valid()
      ensures r == if Position(old(nodes), id) < 0 then Failure(NodeNotFound)
                   else if |old(nodes)| <= minNodes then Failure(InsufficientNodes) else Success(())
      ensures nodes == if r.Success? then Removed(old(nodes), Position(old(nodes), id)) else old(nodes)
      ensures |old(nodes)| >= minNodes ==> |nodes| >= minNodes
    {
      hide Position, Removed, DistinctDids;
      var pos := Position(nodes, id);
      if pos < 0 {
        return Failure(NodeNotFound);
      }
      if |nodes| <= minNodes {
        return Failure(InsufficientNodes);
      }
      RemovedKeepsDistinct(nodes, pos);
      nodes := Removed(nodes, pos);
      return Success(());
    }

    /** A rotation whose new DID is still registered fails after the old node is gone; the epoch
        advances exactly when both steps succeed. */
    method Rotate(oldId: nat, node: Node) returns (r: Result<(), Error>)
      requires Valid()
      modifies this`nodes, this`epoch
      ensures Valid()
      ensures var p := Position(old(nodes), oldId);
        if p < 0 then r == Failure(NodeNotFound) && nodes == old(nodes)
        else if |old(nodes)| <= minNodes then r == Failure(InsufficientNodes) && nodes == old(nodes)
        else
          var left := Removed(old(nodes), p);
          if HasDid(left, node.did) then r == Failure(AlreadyRegistered) && nodes == left
          else r == Success(()) && nodes == left + [node]
      ensures epoch == old(epoch) + if r.Success? then 1 else 0
      ensures |old(nodes)| >= minNodes ==> |nodes| >= minNodes
    {
      r := Remove(oldId);
      if r.Failure? {
        return;
      }
      r := Register(node);
      if r.Failure? {
        return;
      }
      epoch := epoch + 1;
    }

    method SumWeights() returns (total: nat)
      ensures total == TotalWeight(nodes)
    {
      total := 0;
      for i := 0 to |nodes|
        invariant total == TotalWeight(nodes[..i])
      {
        assert nodes[..i + 1][..i] == nodes[..i];
        if nodes[i].status == Active {
          total := total + nodes[i].weight;
        }
      }
      assert nodes[..|nodes|] == nodes;
    }

    /** More than two thirds of a total that is not zero. */
    method IsQuorumReached(signedWeight: nat) returns (reached: bool)
      ensures reached <==> TotalWeight(nodes) > 0 && 3 * signedWeight > 2 * TotalWeight(nodes)
      ensures reached <==> QuorumReached(TotalWeight(nodes), signedWeight)
    {
      var total := SumWeights();
      if total == 0 {
        return false;
      }
      reached := signedWeight >= total * 2 / 3 + 1;
    }
  }

  lemma {:induction false} SignedWeights(nodes: seq<Node>, a: iset<string>, b: iset<string>)
    ensures SignedWeight(nodes, a) + SignedWeight(nodes, b) == SignedWeight(nodes, a + b) + SignedWeight(nodes, a * b)
    ensures SignedWeight(nodes, a + b) <= TotalWeight(nodes)
  {
    if nodes != [] {
      SignedWeights(nodes[..|nodes| - 1], a, b);
    }
  }

  /** Two signer sets that both reach the quorum share more than a third of the total weight. */
  lemma QuorumsShareAThird(nodes: seq<Node>, a: iset<string>, b: iset<string>)
    requires QuorumReached(TotalWeight(nodes), SignedWeight(nodes, a))
    requires QuorumReached(TotalWeight(nodes), SignedWeight(nodes, b))
    ensures 3 * SignedWeight(nodes, a * b) > TotalWeight(nodes)
  {
    SignedWeights(nodes, a, b);
  }

  // ----- What counts -----

  /** So all active nodes together reach the quorum, whenever there is any weight. */
  lemma ActiveNodesSuffice(nodes: seq<Node>, signers: iset<string>)
    requires forall n :: n in nodes && n.status == Active ==> n.did in signers
    ensures QuorumReached(TotalWeight(nodes), SignedWeight(nodes, signers)) <==> TotalWeight(nodes) > 0
  {
    ActiveNodesSign(nodes, signers);
  }

  /** The total is what is signed when all active nodes sign: inactive, suspended and retired nodes have
      no say. */
  lemma {:induction false} ActiveNodesSign(nodes: seq<Node>, signers: iset<string>)
    requires forall n :: n in nodes && n.status == Active ==> n.did in signers
    ensures SignedWeight(nodes, signers) == TotalWeight(nodes)
  {
    if nodes != [] {
      assert nodes == nodes[..|nodes| - 1] + [nodes[|nodes| - 1]];
      ActiveNodesSign(nodes[..|nodes| - 1], signers);
    }
  }

  lemma {:induction false} WeightsConcat(a: seq<Node>, b: seq<Node>, signers: iset<string>)
    ensures TotalWeight(a + b) == TotalWeight(a) + TotalWeight(b)
    ensures SignedWeight(a + b, signers) == SignedWeight(a, signers) + SignedWeight(b, signers)
  {
    if b == [] {
      assert a + b == a;
    } else {
      assert (a + b)[..|a + b| - 1] == a + b[..|b| - 1];
      WeightsConcat(a, b[..|b| - 1], signers);
    }
  }

  /** A node adds its weight, if it is active and, to what is signed, if it signs; otherwise nothing. */
  lemma OneNode(a: seq<Node>, n: Node, b: seq<Node>, signers: iset<string>)
    ensures TotalWeight(a + [n] + b) == TotalWeight(a + b) + if n.status == Active then n.weight else 0
    ensures SignedWeight(a + [n] + b, signers)
      == SignedWeight(a + b, signers) + if n.status == Active && n.did in signers then n.weight else 0
  {
    WeightsConcat(a + [n], b, signers);
    WeightsConcat(a, [n], signers);
    WeightsConcat(a, b, signers);
    assert [n][..0] == [];
  }

  /** The weight of a node that is not active changes no answer about the quorum. */
  lemma InactiveWeightIsIrrelevant(a: seq<Node>, n: Node, w: nat, b: seq<Node>, signed: nat)
    requires n.status != Active
    ensures QuorumReached(TotalWeight(a + [n.(weight := w)] + b), signed) == QuorumReached(TotalWeight(a + [n] + b), signed)
  {
    OneNode(a, n, b, iset{});
    OneNode(a, n.(weight := w), b, iset{});
  }

  /** What a removal leaves: all nodes but the first with the id, in their order. */
  lemma RemovalTakesTheFirst(a: seq<Node>, n: Node, b: seq<Node>)
    requires forall m :: m in a ==> m.id != n.id
    ensures Position(a + [n] + b, n.id) == |a|
    ensures Removed(a + [n] + b, |a|) == a + b
  {
    var nodes := a + [n] + b;
    assert nodes[|a|] == n;
    forall i | 0 <= i < |a|
      ensures nodes[i].id != n.id
    {
      assert nodes[i] == a[i] && a[i] in a;
    }
    var p := Position(nodes, n.id);
    assert p >= 0;
  }
}
