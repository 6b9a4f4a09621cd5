/** ComposeNetworkTopology of pkg/plan/network/network_builder.go. */
module NetworkTopology {
  import opened Common
  import opened NetworkBuilder
  import opened FillerLoop

  /** What the planner is asked for. */
  datatype TopologyRequest = TopologyRequest(
    topology: Topology, target: string, execs: seq<ClientVersion>, conss: seq<ClientVersion>)
  {
    predicate IsExec() { Defines(execs, target) }

    function Multiplier(): (m: nat)
      ensures m > 0
    {
      if topology.multiplier != 0 then topology.multiplier else 1
    }

    /** The clients that are paired with the target. */
    function Opposite(): seq<ClientVersion> { if IsExec() then conss else execs }

    function TargetCount(): nat { Times(|Opposite()|, Multiplier()) }

    /** The nodes the whole network needs for the targets to be the requested share of it, rounded down. */
    function Size(): int
      requires topology.percent != 0.0
    {
      (TargetCount() as real / topology.percent).Floor
    }

    ghost function FillerInput(): Input
      requires topology.percent != 0.0
    {
      Input(Size() - TargetCount() - 1, target, execs, conss)
    }

    /** The clients are configured: distinct names, known bootnode clients, a known target. */
    ghost predicate Configured() {
      && target != "all"
      && DistinctNames(execs) && DistinctNames(conss)
      && Defines(execs, topology.bootnodeEl) && Defines(conss, topology.bootnodeCl)
      && (Defines(execs, target) || Defines(conss, target))
    }

    /** The bootnode, then the nodes under test. */
    ghost predicate IsCore(nodes: seq<Node>)
      requires Configured()
    {
      && |nodes| == 1 + TargetCount()
      && nodes[0] == BuildNode(1, Find(execs, topology.bootnodeEl), Find(conss, topology.bootnodeCl))
      && AreTargets(nodes[1..], IsExec(), Find(if IsExec() then execs else conss, target), Opposite(), Multiplier())
    }

    /** The requested share leaves room for one node besides the targets. */
    ghost predicate ShareFits() {
      0.0 < topology.percent <= 1.0 && (TargetCount() + 1) as real * topology.percent <= TargetCount() as real
    }

    /** The request passes every check that reports an error. */
    ghost predicate Acceptable() {
      Configured() && (topology.percent == 0.0 || ShareFits())
    }

    /** The error names what is wrong with the request. */
    ghost predicate Explains(error: TopologyError) {
      match error
      case TargetAllUnsupported => target == "all"
      case DuplicateClient(name) => ListedTwice(execs, name) || ListedTwice(conss, name)
      case UnknownBootnode(name) =>
        || (name == topology.bootnodeEl && !Defines(execs, name))
        || (name == topology.bootnodeCl && !Defines(conss, name))
      case UnknownTarget(name) => name == target && !Defines(execs, name) && !Defines(conss, name)
      case InvalidPercent => !(0.0 <= topology.percent <= 1.0)
      case PercentTooHigh => 0.0 < topology.percent <= 1.0 && !ShareFits()
    }

    /** A share is requested that the bootnode and the targets meet on their own, or a list has no client but
        the target. */
    ghost predicate NeverComposed() {
      && topology.percent != 0.0
      && (|| FewerThan(TargetCount(), TargetCount() + 2, topology.percent)
          || Others(execs, target) == [] || Others(conss, target) == [])
    }

    /** How many nodes the network has. */
    ghost predicate HasSize(n: int) {
      && Acceptable()
      && if topology.percent == 0.0 then n == 1 + TargetCount() else n == Size() && Returns(FillerInput())
    }

    /** The whole network: bootnode, targets, and fillers if a share was requested. */
    ghost predicate Plans(nodes: seq<Node>) {
      && HasSize(|nodes|) && 1 + TargetCount() <= |nodes|
      && IsCore(nodes[..1 + TargetCount()])
      && (topology.percent != 0.0 ==>
           AreFillers(nodes[1 + TargetCount()..], TargetCount() + 2, Others(execs, target), Others(conss, target)))
    }
  }

  ghost predicate ListedTwice(clients: seq<ClientVersion>, name: string) {
    exists i, j :: 0 <= i < j < |clients| && clients[i].name == name && clients[j].name == name
  }

  /** The targets are fewer than their share of a network of this size. */
  ghost predicate FewerThan(targets: nat, size: nat, share: real) {
    size as real * share > targets as real
  }

  /** a * b, by repeated addition. */
  function Times(a: nat, b: nat): nat {
    if a == 0 then 0 else Times(a - 1, b) + b
  }

  lemma {:induction false} TimesIs(a: nat, b: nat)
    ensures Times(a, b) == a * b
  {
    if a > 0 {
      TimesIs(a - 1, b);
      assert (a - 1) * b + b == a * b;
    }
  }

  // ---------------------------------------------------------------- the code

  /** The filler nodes needed next to `targets` target nodes and the bootnode. Accepted exactly when a network of
      one more node than the targets does not already push their share below the requested one; the resulting
      network is then the largest in which the targets still make up that share. */
  method CalcNodesNeededToSatisfyTarget(percent: real, targets: nat) returns (r: Result<int, TopologyError>)
    requires percent != 0.0
    ensures r.Ok? <==> 0.0 < percent <= 1.0 && (targets + 1) as real * percent <= targets as real
    ensures r.Err? ==> r.error == if 0.0 < percent <= 1.0 then PercentTooHigh else InvalidPercent
    ensures r.Ok? ==> r.value >= 0 && r.value == (targets as real / percent).Floor - targets - 1
    ensures r.Ok? ==> var n := r.value + targets + 1;
      n as real * percent <= targets as real < (n + 1) as real * percent
  {
    if percent > 1.0 || percent < 0.0 {
      return Err(InvalidPercent);
    }
    var size := targets as real / percent;
    Quotient(targets as real, percent, size, (targets + 1) as real);
    if size - targets as real < 1.0 {
      return Err(PercentTooHigh);
    }
    Quotient(targets as real, percent, size, size.Floor as real);
    Quotient(targets as real, percent, size, (size.Floor + 1) as real);
    return Ok(size.Floor - targets - 1);
  }

  lemma Quotient(t: real, p: real, q: real, x: real)
    requires p > 0.0 && q == t / p
    ensures x <= q <==> x * p <= t
  {
    assert q * p == t;
    if x <= q {
      assert (q - x) * p >= 0.0;
    } else {
      assert (x - q) * p > 0.0;
    }
  }

  method ComposeNetworkTopology(req: TopologyRequest) returns (r: Outcome<seq<Node>>)
    ensures r.Rejected? <==> !req.Acceptable()
    ensures r.Rejected? ==> req.Explains(r.error)
    ensures r.Hangs? <==> req.Acceptable() && req.topology.percent != 0.0 && !Returns(req.FillerInput())
    ensures r.Done? ==> req.Plans(r.value)
  {
    var core := ComposeBootnodeAndTargets(req);
    if core.Err? {
      return Rejected(core.error);
    }
    var nodes := core.value;
    if req.topology.percent == 0.0 {
      assert nodes[..|nodes|] == nodes;
      return Done(nodes);
    }
    r := AddFillers(req, nodes);
    if r.Done? {
      assert r.value[..|nodes|] == nodes;
    }
  }

  /** The bootnode and the nodes under test. */
  method ComposeBootnodeAndTargets(req: TopologyRequest) returns (r: Result<seq<Node>, TopologyError>)
    ensures r.Ok? <==> req.Configured()
    ensures r.Ok? ==> req.IsCore(r.value)
    ensures r.Err? ==> req.Explains(r.error)
  {
    if req.target == "all" {
      return Err(TargetAllUnsupported);
    }
    var execMap := PopulateClientMap(req.execs);
    if execMap.Err? {
      return Err(execMap.error);
    }
    var consMap := PopulateClientMap(req.conss);
    if consMap.Err? {
      return Err(consMap.error);
    }
    if req.topology.bootnodeEl !in execMap.value {
      return Err(UnknownBootnode(req.topology.bootnodeEl));
    }
    if req.topology.bootnodeCl !in consMap.value {
      return Err(UnknownBootnode(req.topology.bootnodeCl));
    }
    var bootnode := BuildNode(1, execMap.value[req.topology.bootnodeEl], consMap.value[req.topology.bootnodeCl]);
    var targets;
    if req.IsExec() {
      targets := ComposeNodesForElTesting(req.Multiplier(), execMap.value[req.target], req.conss);
    } else if req.target in consMap.value {
      targets := ComposeNodesForClTesting(req.Multiplier(), consMap.value[req.target], req.execs);
    } else {
      return Err(UnknownTarget(req.target));
    }
    TimesIs(|req.Opposite()|, req.Multiplier());
    r := Ok([bootnode] + targets);
    assert r.value[1..] == targets;
  }

  /** composeNodesToSatisfyTargetPercent, appended to the bootnode and the targets. */
  method AddFillers(req: TopologyRequest, nodes: seq<Node>) returns (r: Outcome<seq<Node>>)
    requires req.topology.percent != 0.0 && |nodes| == 1 + req.TargetCount()
    ensures r.Rejected? <==> !req.ShareFits()
    ensures r.Rejected? ==> req.Explains(r.error)
    ensures r.Hangs? <==> !r.Rejected? && !Returns(req.FillerInput())
    ensures r.Done? ==>
      && nodes <= r.value && |r.value| == req.Size() && Returns(req.FillerInput())
      && AreFillers(r.value[|nodes|..], |nodes| + 1, Others(req.execs, req.target), Others(req.conss, req.target))
  {
    var needed := CalcNodesNeededToSatisfyTarget(req.topology.percent, req.TargetCount());
    if needed.Err? {
      return Rejected(needed.error);
    }
    ReturnsIff(req.FillerInput());
    if needed.value < 1 || Others(req.execs, req.target) == [] || Others(req.conss, req.target) == [] {
      return Hangs;
    }
    var extra := PickExtraNodeClients(|nodes| + 1, needed.value, req.target, req.execs, req.conss);
    r := Done(nodes + extra);
    assert r.value[|nodes|..] == extra;
  }

  // ---------------------------------------------------------------- results

  /** What composing a node from client configurations guarantees about it. */
  ghost predicate Built(n: Node) {
    && n.execution.extraLabels == map[] && n.consensus.extraLabels == map[]
    && ',' !in n.consensus.image
    && (n.consensus.hasValidatorSidecar <==> n.consensus.sidecarCpu != 0)
    && n.consensusVotes == 0
  }

  predicate Matches(isExec: bool, target: string, n: Node) {
    if isExec then n.execution.kind == target else n.consensus.kind == target
  }

  /** A planned network has at least one target. */
  lemma SomeTarget(req: TopologyRequest)
    requires req.Acceptable()
    ensures req.TargetCount() >= req.Multiplier() >= 1
  {
    TimesIs(|req.Opposite()|, req.Multiplier());
    MulMonotone(1, |req.Opposite()|, req.Multiplier());
  }

  /** Which node sits where: node i has index i + 1, and of the nodes after the bootnode exactly the targets,
      placed first, run the target client. No filler node does. */
  lemma NodePlaces(req: TopologyRequest, nodes: seq<Node>, i: nat)
    requires req.Plans(nodes) && i < |nodes|
    ensures nodes[i].index == i + 1 && Built(nodes[i])
    ensures 1 <= i ==> (Matches(req.IsExec(), req.target, nodes[i]) <==> i <= req.TargetCount())
  {
    var core := 1 + req.TargetCount();
    if i < core {
      CorePlace(req, nodes[..core], i);
    } else {
      FillerPlace(nodes[core..], core + 1, req.execs, req.conss, req.target, i - core);
    }
  }

  lemma CorePlace(req: TopologyRequest, core: seq<Node>, i: nat)
    requires req.Configured() && req.IsCore(core) && i < |core|
    ensures core[i].index == i + 1 && Built(core[i])
    ensures 1 <= i ==> Matches(req.IsExec(), req.target, core[i])
  {
    if 1 <= i {
      var target := Find(if req.IsExec() then req.execs else req.conss, req.target);
      TargetPlace(core[1..], req.IsExec(), target, req.Opposite(), req.Multiplier(), i - 1);
    }
  }

  lemma TargetPlace(
    nodes: seq<Node>, isExec: bool, target: ClientVersion, opposite: seq<ClientVersion>, multiplier: nat, k: nat)
    requires AreTargets(nodes, isExec, target, opposite, multiplier) && k < |nodes|
    ensures nodes[k].index == k + 2 && Built(nodes[k]) && Matches(isExec, target.name, nodes[k])
  {
  }

  lemma FillerPlace(
    nodes: seq<Node>, start: nat, execs: seq<ClientVersion>, conss: seq<ClientVersion>, target: string, k: nat)
    requires AreFillers(nodes, start, Others(execs, target), Others(conss, target)) && k < |nodes|
    ensures nodes[k].index == start + k && Built(nodes[k])
    ensures nodes[k].execution.kind != target && nodes[k].consensus.kind != target
  {
    FillerAvoids(start, execs, conss, target, k);
  }

  lemma FillerAvoids(
    start: nat, execs: seq<ClientVersion>, conss: seq<ClientVersion>, target: string, k: nat)
    requires Others(execs, target) != [] && Others(conss, target) != []
    ensures var node := Filler(start, Others(execs, target), Others(conss, target), k);
      node.execution.kind != target && node.consensus.kind != target
  {
    var E, C := Others(execs, target), Others(conss, target);
    OthersMembers(execs, target);
    OthersMembers(conss, target);
    assert E[(k / |C|) % |E|] in E && C[k % |C|] in C;
  }

  /** The multiplier as configured: none means one. */
  ghost function TargetMultiplier(topology: Topology): (m: nat)
    ensures m > 0
  {
    if topology.multiplier == 0 then 1 else topology.multiplier
  }

  /** The clients of the other kind than the target. */
  ghost function Partners(req: TopologyRequest): seq<ClientVersion> {
    if exists e :: e in req.execs && e.name == req.target then req.conss else req.execs
  }

  /** The types of client a node runs: the one under test if it is a target, and its partner. */
  ghost predicate Pairs(req: TopologyRequest, node: Node, partner: string) {
    if exists e :: e in req.execs && e.name == req.target
    then node.execution.kind == req.target && node.consensus.kind == partner
    else node.consensus.kind == req.target && node.execution.kind == partner
  }

  lemma SidesAgree(req: TopologyRequest)
    ensures req.IsExec() <==> exists e :: e in req.execs && e.name == req.target
    ensures req.Opposite() == Partners(req) && req.Multiplier() == TargetMultiplier(req.topology)
    ensures req.TargetCount() == |Partners(req)| * TargetMultiplier(req.topology)
  {
    if e :| e in req.execs && e.name == req.target {
      var i :| 0 <= i < |req.execs| && req.execs[i] == e;
    }
    TimesIs(|req.Opposite()|, req.Multiplier());
  }

  /** Node i runs the target with client (i - 1) / m of the other kind, if there is one, or else not at all. */
  ghost predicate PlacedAs(req: TopologyRequest, node: Node, i: int)
    requires i >= 1
  {
    var (m, partners) := (TargetMultiplier(req.topology), Partners(req));
    if i <= |partners| * m then (i - 1) / m < |partners| && Pairs(req, node, partners[(i - 1) / m].name)
    else forall partner :: !Pairs(req, node, partner)
  }

  /** Each client of the other kind is paired with the target `multiplier` times in a row, in configuration order,
      right after the bootnode; no other node runs the target on its side. */
  lemma PairsExactly(req: TopologyRequest, nodes: seq<Node>, i: nat)
    requires req.Plans(nodes) && 1 <= i < |nodes|
    ensures PlacedAs(req, nodes[i], i)
  {
    SidesAgree(req);
    NodePlaces(req, nodes, i);
    if i <= req.TargetCount() {
      var core := nodes[..1 + req.TargetCount()];
      var target := Find(if req.IsExec() then req.execs else req.conss, req.target);
      PairOfTarget(core[1..], req.IsExec(), target, req.Opposite(), req.Multiplier(), i - 1);
      assert core[1..][i - 1] == nodes[i];
    }
  }

  lemma PairOfTarget(
    nodes: seq<Node>, isExec: bool, target: ClientVersion, opposite: seq<ClientVersion>, multiplier: nat, k: nat)
    requires AreTargets(nodes, isExec, target, opposite, multiplier) && k < |nodes|
    ensures k / multiplier < |opposite|
    ensures var (kind, partner) := (nodes[k].execution.kind, nodes[k].consensus.kind);
      var other := opposite[k / multiplier].name;
      if isExec then kind == target.name && partner == other else partner == target.name && kind == other
  {
  }

  /** In a planned network every client of the other kind is paired with the target exactly `multiplier` times. */
  lemma PairedOften(req: TopologyRequest, nodes: seq<Node>, j: nat)
    requires req.Plans(nodes) && j < |Partners(req)|
    ensures |set i | 1 <= i < |nodes| && Pairs(req, nodes[i], Partners(req)[j].name)| == TargetMultiplier(req.topology)
  {
    var m, partner := TargetMultiplier(req.topology), Partners(req)[j].name;
    var paired := set i | 1 <= i < |nodes| && Pairs(req, nodes[i], partner);
    forall i
      ensures i in paired <==> 1 + j * m <= i < 1 + j * m + m
    {
      PairedIff(req, nodes, j, i);
    }
    IntervalSize(1 + j * m, 1 + j * m + m, paired);
  }

  lemma PairedIff(req: TopologyRequest, nodes: seq<Node>, j: nat, i: int)
    requires req.Plans(nodes) && j < |Partners(req)|
    ensures var m := TargetMultiplier(req.topology);
      1 <= i < |nodes| && Pairs(req, nodes[i], Partners(req)[j].name) <==> 1 + j * m <= i < 1 + j * m + m
  {
    SidesAgree(req);
    RowFits(j, |Partners(req)|, TargetMultiplier(req.topology));
    if 1 <= i < |nodes| {
      PairsExactly(req, nodes, i);
      PairsAt(req, nodes[i], Partners(req), TargetMultiplier(req.topology), j, i);
    }
  }

  lemma PairsAt(req: TopologyRequest, node: Node, partners: seq<ClientVersion>, m: nat, j: nat, i: nat)
    requires DistinctNames(partners) && m > 0 && j < |partners| && i >= 1
    requires if i <= |partners| * m then (i - 1) / m < |partners| && Pairs(req, node, partners[(i - 1) / m].name)
             else forall partner :: !Pairs(req, node, partner)
    ensures Pairs(req, node, partners[j].name) <==> 1 + j * m <= i < 1 + j * m + m
  {
    RowFits(j, |partners|, m);
    RowIff(i - 1, j, m);
    if i <= |partners| * m {
      PairsInRow(req, node, partners, (i - 1) / m, j);
    }
  }

  lemma PairsInRow(req: TopologyRequest, node: Node, partners: seq<ClientVersion>, row: nat, j: nat)
    requires DistinctNames(partners) && row < |partners| && j < |partners|
    requires Pairs(req, node, partners[row].name)
    ensures Pairs(req, node, partners[j].name) <==> row == j
  {
    if row != j {
      assert partners[row].name != partners[j].name;
    }
  }

  lemma RowFits(j: nat, rows: nat, m: nat)
    requires j < rows
    ensures j * m + m <= rows * m
  {
    MulMonotone(j + 1, rows, m);
    assert (j + 1) * m == j * m + m;
  }

  lemma RowIff(k: nat, j: nat, m: nat)
    requires m > 0
    ensures k / m == j <==> j * m <= k < j * m + m
  {
    if j * m <= k < j * m + m {
      QuotientIs(k, j, m, k - j * m);
    }
  }

  /** How many nodes under test a planned network has. */
  lemma TargetsExactly(req: TopologyRequest, nodes: seq<Node>)
    requires req.Plans(nodes)
    ensures |set i | 1 <= i < |nodes| && Matches(req.IsExec(), req.target, nodes[i])|
      == |Partners(req)| * TargetMultiplier(req.topology)
    ensures req.topology.percent == 0.0 ==> |nodes| == 1 + |Partners(req)| * TargetMultiplier(req.topology)
  {
    SidesAgree(req);
    var targets := set i | 1 <= i < |nodes| && Matches(req.IsExec(), req.target, nodes[i]);
    forall i
      ensures i in targets <==> 1 <= i < 1 + req.TargetCount()
    {
      if 1 <= i < |nodes| {
        NodePlaces(req, nodes, i);
      }
    }
    IntervalSize(1, 1 + req.TargetCount(), targets);
  }

  /** Every node of a planned network is set up as its two clients are configured; the first is the bootnode. */
  lemma NodesAsConfigured(req: TopologyRequest, nodes: seq<Node>, i: nat)
    requires req.Plans(nodes) && i < |nodes|
    ensures exists e, c :: e in req.execs && c in req.conss && RunsExecution(nodes[i], e) && RunsConsensus(nodes[i], c)
    ensures i == 0 ==>
      nodes[i].execution.kind == req.topology.bootnodeEl && nodes[i].consensus.kind == req.topology.bootnodeCl
  {
    var e, c := ConfigurationOf(req, nodes, i);
    BuiltAsConfigured(nodes[i].index, e, c);
  }

  lemma ConfigurationOf(req: TopologyRequest, nodes: seq<Node>, i: nat) returns (e: ClientVersion, c: ClientVersion)
    requires req.Plans(nodes) && i < |nodes|
    ensures e in req.execs && c in req.conss && nodes[i] == BuildNode(nodes[i].index, e, c)
    ensures i == 0 ==> e.name == req.topology.bootnodeEl && c.name == req.topology.bootnodeCl
  {
    hide BuildNode, AreFillers, AreTargets, Find, Others, Defines, DistinctNames, Returns, Times;
    var core := 1 + req.TargetCount();
    if i < core {
      e, c := CoreFrom(req, nodes[..core], i);
    } else {
      assert nodes[core..][i - core] == nodes[i];
      e, c := FillerFrom(nodes[core..], core + 1, req.execs, req.conss, req.target, i - core);
    }
  }

  lemma CoreFrom(req: TopologyRequest, core: seq<Node>, i: nat) returns (e: ClientVersion, c: ClientVersion)
    requires req.Configured() && req.IsCore(core) && i < |core|
    ensures e in req.execs && c in req.conss && core[i] == BuildNode(core[i].index, e, c)
    ensures i == 0 ==> e.name == req.topology.bootnodeEl && c.name == req.topology.bootnodeCl
  {
    if i == 0 {
      e, c := Find(req.execs, req.topology.bootnodeEl), Find(req.conss, req.topology.bootnodeCl);
    } else {
      var target := Find(if req.IsExec() then req.execs else req.conss, req.target);
      var other := TargetFrom(core[1..], req.IsExec(), target, req.Opposite(), req.Multiplier(), i - 1);
      assert core[1..][i - 1] == core[i];
      e, c := if req.IsExec() then target else other, if req.IsExec() then other else target;
    }
  }

  lemma TargetFrom(
    nodes: seq<Node>, isExec: bool, target: ClientVersion, opposite: seq<ClientVersion>, multiplier: nat, k: nat)
    returns (other: ClientVersion)
    requires AreTargets(nodes, isExec, target, opposite, multiplier) && k < |nodes|
    ensures other in opposite
    ensures nodes[k] == if isExec then BuildNode(nodes[k].index, target, other)
                        else BuildNode(nodes[k].index, other, target)
  {
    other := opposite[k / multiplier];
  }

  lemma FillerFrom(
    nodes: seq<Node>, start: nat, execs: seq<ClientVersion>, conss: seq<ClientVersion>, target: string, k: nat)
    returns (e: ClientVersion, c: ClientVersion)
    requires AreFillers(nodes, start, Others(execs, target), Others(conss, target)) && k < |nodes|
    ensures e in execs && c in conss && nodes[k] == BuildNode(nodes[k].index, e, c)
  {
    var E, C := Others(execs, target), Others(conss, target);
    OthersMembers(execs, target);
    OthersMembers(conss, target);
    e, c := E[(k / |C|) % |E|], C[k % |C|];
    assert e in E && c in C;
  }

  /** Filler k runs through the other execution clients slowly and the other consensus clients quickly. */
  lemma FillersInTurn(req: TopologyRequest, nodes: seq<Node>, k: nat)
    returns (E: seq<ClientVersion>, C: seq<ClientVersion>)
    requires req.Plans(nodes) && 1 + req.TargetCount() + k < |nodes|
    ensures E != [] && C != []
    ensures IsFilter(req.execs, E, (c: ClientVersion) => c.name != req.target)
    ensures IsFilter(req.conss, C, (c: ClientVersion) => c.name != req.target)
    ensures var node := nodes[1 + req.TargetCount() + k];
      node.execution.kind == E[(k / |C|) % |E|].name && node.consensus.kind == C[k % |C|].name
  {
    E, C := Others(req.execs, req.target), Others(req.conss, req.target);
    OthersIsFilter(req.execs, req.target);
    OthersIsFilter(req.conss, req.target);
    var fillers := nodes[1 + req.TargetCount()..];
    assert fillers[k] == nodes[1 + req.TargetCount() + k];
    FillerTypes(fillers, req.TargetCount() + 2, E, C, k);
  }

  lemma FillerTypes(nodes: seq<Node>, start: nat, E: seq<ClientVersion>, C: seq<ClientVersion>, k: nat)
    requires AreFillers(nodes, start, E, C) && k < |nodes|
    ensures nodes[k].execution.kind == E[(k / |C|) % |E|].name && nodes[k].consensus.kind == C[k % |C|].name
  {
  }

  /** With a requested share p, the planned network of N nodes satisfies N * p <= T < (N + 1) * p for its T
      targets: they make up at least the share, and one node more would push them below it. At least one
      filler was added. */
  lemma SizeMeetsShare(req: TopologyRequest, n: int)
    requires req.HasSize(n) && req.topology.percent != 0.0
    ensures n as real * req.topology.percent <= req.TargetCount() as real < (n + 1) as real * req.topology.percent
    ensures n >= req.TargetCount() + 2
  {
    Share(req.TargetCount(), req.topology.percent);
    FillersWanted(req);
  }

  lemma FillersWanted(req: TopologyRequest)
    requires req.topology.percent != 0.0 && Returns(req.FillerInput())
    ensures req.Size() >= req.TargetCount() + 2
  {
    ReturnsIff(req.FillerInput());
  }

  lemma Share(t: nat, p: real)
    requires p > 0.0
    ensures var n := (t as real / p).Floor;
      && n as real * p <= t as real < (n + 1) as real * p
      && (n >= t + 2 <==> (t + 2) as real * p <= t as real)
  {
    var q := t as real / p;
    Quotient(t as real, p, q, q.Floor as real);
    Quotient(t as real, p, q, (q.Floor + 1) as real);
    Quotient(t as real, p, q, (t + 2) as real);
  }

  /** The call never returns exactly when a share is requested that the bootnode and the targets meet on their
      own, or when a list has no client but the target. */
  lemma HangsIff(req: TopologyRequest)
    requires req.Acceptable() && req.topology.percent != 0.0
    ensures !Returns(req.FillerInput()) <==> req.NeverComposed()
  {
    ReturnsIff(req.FillerInput());
    NoFillerIff(req);
  }

  lemma NoFillerIff(req: TopologyRequest)
    requires req.topology.percent > 0.0
    ensures req.FillerInput().nodeCount < 1
      <==> FewerThan(req.TargetCount(), req.TargetCount() + 2, req.topology.percent)
  {
    NoRoomIff(req.TargetCount(), req.topology.percent);
  }

  lemma NoRoomIff(t: nat, p: real)
    requires p > 0.0
    ensures (t as real / p).Floor - t - 1 < 1 <==> FewerThan(t, t + 2, p)
  {
    Share(t, p);
  }

  /** For example: one client under test paired with two others, to be two thirds of the network. */
  lemma TwoThirdsHangs(geth: ClientVersion, reth: ClientVersion, teku: ClientVersion, prysm: ClientVersion)
    requires geth.name == "geth" && reth.name == "reth" && teku.name == "teku" && prysm.name == "prysm"
    ensures var req := TopologyRequest(Topology("reth", "teku", 2.0 / 3.0, 0), "geth", [geth, reth], [teku, prysm]);
      req.Acceptable() && !Returns(req.FillerInput())
  {
    var execs, conss := [geth, reth], [teku, prysm];
    var req := TopologyRequest(Topology("reth", "teku", 2.0 / 3.0, 0), "geth", execs, conss);
    assert execs[0] == geth && execs[1] == reth && conss[0] == teku && conss[1] == prysm;
    assert Defines(execs, "geth") && Defines(execs, "reth") && Defines(conss, "teku");
    assert req.TargetCount() == 2;
    HangsIff(req);
  }
}
