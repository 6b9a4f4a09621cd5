/** pkg/plan/serialization.go: the network configuration written for a topology, and the topology read back. */
module Serialization {
  import opened Strings
  import opened NetworkBuilder
  import opened NetworkTopology

  datatype Participant = Participant(
    elType: string, elImage: string, clType: string, clImage: string,
    elMinCpu: int, elMaxCpu: int, elMinMemory: int, elMaxMemory: int,
    clMinCpu: int, clMaxCpu: int, clMinMemory: int, clMaxMemory: int,
    valMinCpu: int, valMaxCpu: int, valMinMemory: int, valMaxMemory: int,
    count: int)

  function Serialized(n: Node): Participant {
    var e, c := n.execution, n.consensus;
    Participant(e.kind, e.image, c.kind, c.image,
                e.cpu, e.cpu, e.memory, e.memory,
                c.cpu, c.cpu, c.memory, c.memory,
                c.sidecarCpu, c.sidecarCpu, c.sidecarMemory, c.sidecarMemory, 1)
  }

  function Deserialized(p: Participant, i: nat, votes: int): Node {
    var splits := p.valMaxCpu != 0 && ',' in p.clImage;
    var images := Split(p.clImage, ',');
    Node(i + 1,
         ExecutionClient(p.elType, p.elImage, map[], p.elMinCpu, p.elMinMemory),
         ConsensusClient(p.clType, if splits then images[0] else p.clImage, p.valMaxCpu != 0,
                         if splits then images[1] else "", map[],
                         p.clMinCpu, p.clMinMemory, p.valMinCpu, p.valMinMemory),
         votes)
  }

  method SerializeNodes(nodes: seq<Node>) returns (participants: array<Participant>)
    ensures participants.Length == |nodes|
    ensures forall i :: 0 <= i < |nodes| ==> participants[i] == Serialized(nodes[i])
  {
    participants := new Participant[|nodes|];
    for i := 0 to |nodes|
      invariant forall j :: 0 <= j < i ==> participants[j] == Serialized(nodes[j])
    {
      var consensusImage := nodes[i].consensus.image;
      participants[i] := Serialized(nodes[i]).(clImage := consensusImage);
    }
  }

  /** `votes` is the keys-per-node value of the configuration. */
  method DeserializeNetworkTopology(participants: seq<Participant>, votes: int) returns (nodes: seq<Node>)
    ensures |nodes| == |participants|
    ensures forall i :: 0 <= i < |nodes| ==> nodes[i] == Deserialized(participants[i], i, votes)
  {
    nodes := [];
    for i := 0 to |participants|
      invariant |nodes| == i
      invariant forall j :: 0 <= j < i ==> nodes[j] == Deserialized(participants[j], j, votes)
    {
      var p := participants[i];
      var hasSidecar, consensusImage, validatorImage := false, p.clImage, "";
      if p.valMaxCpu != 0 {
        hasSidecar := true;
        if ',' in consensusImage {
          var images := Split(consensusImage, ',');
          consensusImage, validatorImage := images[0], images[1];
        }
      }
      nodes := nodes + [Node(
        i + 1,
        ExecutionClient(p.elType, p.elImage, map[], p.elMinCpu, p.elMinMemory),
        ConsensusClient(p.clType, consensusImage, hasSidecar, validatorImage, map[],
                        p.clMinCpu, p.clMinMemory, p.valMinCpu, p.valMinMemory),
        votes)];
    }
  }

  ghost function Instances(participants: seq<Participant>): int {
    if participants == [] then 0
    else Instances(participants[..|participants| - 1]) + participants[|participants| - 1].count
  }

  /** The written network has as many instances as the topology has nodes. */
  lemma {:induction false} OneInstancePerNode(nodes: seq<Node>, participants: seq<Participant>)
    requires |participants| == |nodes|
    requires forall i :: 0 <= i < |nodes| ==> participants[i] == Serialized(nodes[i])
    ensures Instances(participants) == |nodes|
  {
    if nodes != [] {
      var n := |nodes| - 1;
      OneInstancePerNode(nodes[..n], participants[..n]);
    }
  }

  /** What a node requires is written as its minimum and as its limit, for each of its three pods. */
  lemma RequestsAreLimits(n: Node)
    ensures var p := Serialized(n);
      && p.elMinCpu == p.elMaxCpu == n.execution.cpu && p.elMinMemory == p.elMaxMemory == n.execution.memory
      && p.clMinCpu == p.clMaxCpu == n.consensus.cpu && p.clMinMemory == p.clMaxMemory == n.consensus.memory
      && p.valMinCpu == p.valMaxCpu == n.consensus.sidecarCpu
      && p.valMinMemory == p.valMaxMemory == n.consensus.sidecarMemory
  {
  }

  // ---------------------------------------------------------------- round trips

  /** A topology written and read back. */
  function RoundTrip(nodes: seq<Node>, votes: int): seq<Node> {
    seq(|nodes|, i requires 0 <= i < |nodes| => Deserialized(Serialized(nodes[i]), i, votes))
  }

  /** The node without what the configuration does not hold. */
  function Kept(n: Node, votes: int): Node {
    n.(consensus := n.consensus.(validatorImage := ""), consensusVotes := votes)
  }

  /** The node at position i survives a round trip up to its validator image and its votes. */
  ghost predicate Restorable(n: Node, i: nat) {
    && n.index == i + 1
    && n.execution.extraLabels == map[] && n.consensus.extraLabels == map[]
    && (n.consensus.hasValidatorSidecar <==> n.consensus.sidecarCpu != 0)
    && (n.consensus.sidecarCpu != 0 ==> ',' !in n.consensus.image)
  }

  lemma RestoredIff(n: Node, i: nat, votes: int)
    ensures Deserialized(Serialized(n), i, votes) == Kept(n, votes) <==> Restorable(n, i)
  {
    var images := Split(n.consensus.image, ',');
    var back := Deserialized(Serialized(n), i, votes);
    assert back.consensus.image == n.consensus.image <==> !(n.consensus.sidecarCpu != 0 && ',' in n.consensus.image);
  }

  /** A round trip returns the same nodes, but for validator images and votes, exactly when indices are the
      positions, labels are empty, sidecars are those with a cpu request, and their images hold no comma. */
  lemma RoundTripIff(nodes: seq<Node>, votes: int)
    ensures RoundTrip(nodes, votes) == seq(|nodes|, i requires 0 <= i < |nodes| => Kept(nodes[i], votes))
      <==> forall i :: 0 <= i < |nodes| ==> Restorable(nodes[i], i)
  {
    var kept := seq(|nodes|, i requires 0 <= i < |nodes| => Kept(nodes[i], votes));
    forall i | 0 <= i < |nodes|
      ensures RoundTrip(nodes, votes)[i] == kept[i] <==> Restorable(nodes[i], i)
    {
      RestoredIff(nodes[i], i, votes);
    }
    if RoundTrip(nodes, votes) == kept {
      forall i | 0 <= i < |nodes|
        ensures Restorable(nodes[i], i)
      {
        assert RoundTrip(nodes, votes)[i] == kept[i];
      }
    }
  }

  /** Every topology the planner builds round trips. */
  lemma PlannedTopologyRoundTrips(req: TopologyRequest, nodes: seq<Node>, votes: int)
    requires req.Plans(nodes)
    ensures RoundTrip(nodes, votes) == seq(|nodes|, i requires 0 <= i < |nodes| => Kept(nodes[i], votes))
    ensures RoundTrip(RoundTrip(nodes, votes), votes) == RoundTrip(nodes, votes)
  {
    forall i | 0 <= i < |nodes|
      ensures Restorable(nodes[i], i)
    {
      NodePlaces(req, nodes, i);
    }
    RoundTripIff(nodes, votes);
    SecondTripIff(nodes, votes);
  }

  /** A validator image read from a comma-separated image is lost by the next write. */
  ghost predicate LosesValidatorImage(n: Node) {
    && n.consensus.sidecarCpu != 0 && ',' in n.consensus.image
    && Split(n.consensus.image, ',')[1] != ""
  }

  /** For any nodes at all, a second round trip changes nothing exactly when no validator image is split off,
      and a third one never changes anything. */
  lemma SecondTripIff(nodes: seq<Node>, votes: int)
    ensures RoundTrip(RoundTrip(nodes, votes), votes) == RoundTrip(nodes, votes)
      <==> forall n :: n in nodes ==> !LosesValidatorImage(n)
    ensures RoundTrip(RoundTrip(RoundTrip(nodes, votes), votes), votes) == RoundTrip(RoundTrip(nodes, votes), votes)
  {
    var once, twice := RoundTrip(nodes, votes), RoundTrip(RoundTrip(nodes, votes), votes);
    forall i | 0 <= i < |nodes|
      ensures twice[i] == once[i] <==> !LosesValidatorImage(nodes[i])
      ensures Deserialized(Serialized(twice[i]), i, votes) == twice[i]
    {
      TripsOfNode(nodes[i], i, votes);
    }
    if twice == once {
      forall n | n in nodes
        ensures !LosesValidatorImage(n)
      {
        var i :| 0 <= i < |nodes| && nodes[i] == n;
        assert twice[i] == once[i];
      }
    }
  }

  lemma TripsOfNode(n: Node, i: nat, votes: int)
    ensures var once := Deserialized(Serialized(n), i, votes);
      var twice := Deserialized(Serialized(once), i, votes);
      && (twice == once <==> !LosesValidatorImage(n))
      && Deserialized(Serialized(twice), i, votes) == twice
  {
    var images := Split(n.consensus.image, ',');
    var once := Deserialized(Serialized(n), i, votes);
    assert once.consensus.sidecarCpu != 0 ==> ',' !in once.consensus.image;
  }
}
