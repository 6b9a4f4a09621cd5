/** The network topology of pkg/plan/network: a bootnode, the nodes under test, and filler nodes. */
module NetworkBuilder {
  import opened Common
  import opened Strings

  const DEFAULT_EL_CPU := 768
  const DEFAULT_EL_MEM := 1024
  const DEFAULT_CL_CPU := 1000
  const DEFAULT_CL_MEM := 1536
  const DEFAULT_VAL_CPU := 500
  const DEFAULT_VAL_MEM := 512

  datatype ClientVersion = ClientVersion(name: string, image: string, hasSidecar: bool)

  datatype ExecutionClient = ExecutionClient(
    kind: string, image: string, extraLabels: map<string, string>, cpu: int, memory: int)

  datatype ConsensusClient = ConsensusClient(
    kind: string, image: string, hasValidatorSidecar: bool, validatorImage: string,
    extraLabels: map<string, string>, cpu: int, memory: int, sidecarCpu: int, sidecarMemory: int)

  datatype Node = Node(index: nat, execution: ExecutionClient, consensus: ConsensusClient, consensusVotes: int)

  /** `percent` is targets_as_percent_of_network; a zero percent or multiplier is an unconfigured one. */
  datatype Topology = Topology(bootnodeEl: string, bootnodeCl: string, percent: real, multiplier: nat)

  datatype TopologyError =
    | TargetAllUnsupported
    | DuplicateClient(name: string)
    | UnknownBootnode(name: string)
    | UnknownTarget(name: string)
    | InvalidPercent
    | PercentTooHigh

  /** `Hangs` is a call that never returns. */
  datatype Outcome<+T> = Done(value: T) | Rejected(error: TopologyError) | Hangs

  // ---------------------------------------------------------------- single nodes

  function ComposeExecutionClient(config: ClientVersion): ExecutionClient {
    ExecutionClient(config.name, config.image, map[], DEFAULT_EL_CPU, DEFAULT_EL_MEM)
  }

  /** An image of the form "a,b" holds the beacon image and the validator image. */
  function ComposeConsensusClient(config: ClientVersion): (c: ConsensusClient)
    ensures ',' !in c.image
    ensures c.hasValidatorSidecar <==> c.sidecarCpu != 0
  {
    var images := Split(config.image, ',');
    var image := if ',' in config.image then images[0] else config.image;
    var validatorImage := if ',' in config.image then images[1] else "";
    if config.hasSidecar then
      ConsensusClient(config.name, image, true, validatorImage, map[],
                      DEFAULT_CL_CPU, DEFAULT_CL_MEM, DEFAULT_VAL_CPU, DEFAULT_VAL_MEM)
    else
      ConsensusClient(config.name, image, false, validatorImage, map[], DEFAULT_CL_CPU, DEFAULT_CL_MEM, 0, 0)
  }

  function BuildNode(index: nat, exec: ClientVersion, cons: ClientVersion): Node {
    Node(index, ComposeExecutionClient(exec), ComposeConsensusClient(cons), 0)
  }

  /** The node's execution client is set up as configured, with 768 millicores and 1024 megabytes. */
  ghost predicate RunsExecution(node: Node, config: ClientVersion) {
    && node.execution.kind == config.name && node.execution.image == config.image
    && node.execution.extraLabels == map[] && node.execution.cpu == 768 && node.execution.memory == 1024
  }

  /** The node's consensus client is set up as configured, with 1000 millicores and 1536 megabytes, and 500 and 512
      for the validator if there is to be a sidecar. What stands before the first comma of the configured image is
      the beacon image, what stands between it and a second one the validator image. */
  ghost predicate RunsConsensus(node: Node, config: ClientVersion) {
    && node.consensus.kind == config.name && node.consensus.extraLabels == map[]
    && node.consensus.cpu == 1000 && node.consensus.memory == 1536
    && node.consensus.hasValidatorSidecar == config.hasSidecar
    && node.consensus.sidecarCpu == (if config.hasSidecar then 500 else 0)
    && node.consensus.sidecarMemory == (if config.hasSidecar then 512 else 0)
    && ImagesOf(config.image, node.consensus.image, node.consensus.validatorImage)
  }

  ghost predicate ImagesOf(configured: string, beacon: string, validator: string) {
    && ',' !in beacon && ',' !in validator
    && if ',' in configured then
         || configured == beacon + "," + validator
         || exists rest: string :: configured == beacon + "," + (validator + "," + rest)
       else configured == beacon && validator == ""
  }

  /** A node is built from the configuration of its two clients. */
  lemma BuiltAsConfigured(index: nat, exec: ClientVersion, cons: ClientVersion)
    ensures var node := BuildNode(index, exec, cons);
      node.index == index && node.consensusVotes == 0 && RunsExecution(node, exec) && RunsConsensus(node, cons)
  {
    ImagesSplit(cons.image);
  }

  lemma ImagesSplit(image: string)
    ensures var images := Split(image, ',');
      if |images| >= 2 then ImagesOf(image, images[0], images[1]) else ImagesOf(image, image, "")
  {
    var images := Split(image, ',');
    JoinSplit(image, ',');
    SplitParts(image, ',');
    if |images| >= 2 {
      var rest := images[1..];
      assert image == images[0] + "," + Join(rest, ',');
      if |rest| > 1 {
        assert image == images[0] + "," + (images[1] + "," + Join(rest[1..], ','));
      }
    }
  }

  // ---------------------------------------------------------------- client lists

  predicate Defines(clients: seq<ClientVersion>, name: string) {
    exists i :: 0 <= i < |clients| && clients[i].name == name
  }

  /** The configuration of a client by name: the first of that name. */
  function Find(clients: seq<ClientVersion>, name: string): (c: ClientVersion)
    requires Defines(clients, name)
    ensures c in clients && c.name == name
  {
    if clients[0].name == name then clients[0] else Find(clients[1..], name)
  }

  ghost predicate DistinctNames(clients: seq<ClientVersion>) {
    forall i, j :: 0 <= i < j < |clients| ==> clients[i].name != clients[j].name
  }

  lemma {:induction false} FindUnique(clients: seq<ClientVersion>, i: nat)
    requires DistinctNames(clients) && i < |clients|
    ensures Defines(clients, clients[i].name) && Find(clients, clients[i].name) == clients[i]
  {
    var c := Find(clients, clients[i].name);
  }

  /** The clients other than the target, in configuration order: the candidates for filler nodes. */
  function Others(clients: seq<ClientVersion>, target: string): seq<ClientVersion>
  {
    if clients == [] then []
    else
      Others(clients[..|clients| - 1], target)
      + if clients[|clients| - 1].name == target then [] else [clients[|clients| - 1]]
  }

  /** Exactly the clients other than the target, in order. */
  lemma {:induction false} OthersIsFilter(clients: seq<ClientVersion>, target: string)
    ensures IsFilter(clients, Others(clients, target), (c: ClientVersion) => c.name != target)
  {
    var test := (c: ClientVersion) => c.name != target;
    if clients == [] {
      NothingToFilter(test);
    } else {
      var n := |clients| - 1;
      OthersIsFilter(clients[..n], target);
      FilterSnoc(clients[..n], Others(clients[..n], target), test, clients[n]);
      assert clients == clients[..n] + [clients[n]];
    }
  }

  lemma {:induction false} OthersMembers(clients: seq<ClientVersion>, target: string)
    ensures forall c :: c in Others(clients, target) <==> c in clients && c.name != target
  {
    if clients != [] {
      var n := |clients| - 1;
      OthersMembers(clients[..n], target);
      assert clients == clients[..n] + [clients[n]];
    }
  }

  // ---------------------------------------------------------------- specification of the node lists

  /** Node k of the nodes under test: each client of the opposite kind is paired with the target `multiplier` times. */
  function TargetNode(isExec: bool, target: ClientVersion, opposite: seq<ClientVersion>, multiplier: nat, k: nat): Node
    requires multiplier > 0 && k / multiplier < |opposite|
  {
    var other := opposite[k / multiplier];
    if isExec then BuildNode(2 + k, target, other) else BuildNode(2 + k, other, target)
  }

  /** Filler k runs through the execution clients slowly and the consensus clients quickly, over and over. */
  function Filler(start: nat, execs: seq<ClientVersion>, conss: seq<ClientVersion>, k: nat): Node
    requires execs != [] && conss != []
  {
    BuildNode(start + k, execs[(k / |conss|) % |execs|], conss[k % |conss|])
  }

  ghost predicate AreTargets(
    nodes: seq<Node>, isExec: bool, target: ClientVersion, opposite: seq<ClientVersion>, multiplier: nat)
  {
    && multiplier > 0
    && |nodes| == |opposite| * multiplier
    && forall k :: 0 <= k < |nodes| ==>
         k / multiplier < |opposite| && nodes[k] == TargetNode(isExec, target, opposite, multiplier, k)
  }

  ghost predicate AreFillers(nodes: seq<Node>, start: nat, execs: seq<ClientVersion>, conss: seq<ClientVersion>) {
    && execs != [] && conss != []
    && forall k :: 0 <= k < |nodes| ==> nodes[k] == Filler(start, execs, conss, k)
  }

  // ---------------------------------------------------------------- the code

  method PopulateClientMap(clients: seq<ClientVersion>) returns (r: Result<map<string, ClientVersion>, TopologyError>)
    ensures r.Ok? <==> DistinctNames(clients)
    ensures r.Ok? ==> forall name :: name in r.value <==> Defines(clients, name)
    ensures r.Ok? ==> forall name :: name in r.value ==> r.value[name] == Find(clients, name)
    ensures r.Err? ==> exists i, j ::
      0 <= i < j < |clients| && clients[i].name == clients[j].name && r.error == DuplicateClient(clients[j].name)
  {
    var m: map<string, ClientVersion> := map[];
    for i := 0 to |clients|
      invariant DistinctNames(clients[..i])
      invariant forall name :: name in m <==> exists j :: 0 <= j < i && clients[j].name == name
      invariant forall j :: 0 <= j < i ==> m[clients[j].name] == clients[j]
    {
      if clients[i].name in m {
        return Err(DuplicateClient(clients[i].name));
      }
      m := m[clients[i].name := clients[i]];
    }
    assert clients[..|clients|] == clients;
    forall j | 0 <= j < |clients|
      ensures Find(clients, clients[j].name) == clients[j]
    {
      FindUnique(clients, j);
    }
    return Ok(m);
  }

  method ComposeNodesForElTesting(multiplier: nat, exec: ClientVersion, conss: seq<ClientVersion>)
    returns (nodes: seq<Node>)
    requires multiplier > 0
    ensures AreTargets(nodes, true, exec, conss, multiplier)
  {
    nodes := [];
    var index: nat := 2;
    for j := 0 to |conss|
      invariant |nodes| == j * multiplier && index == 2 + |nodes|
      invariant forall k :: 0 <= k < |nodes| ==>
        k / multiplier < |conss| && nodes[k] == TargetNode(true, exec, conss, multiplier, k)
    {
      for i := 0 to multiplier
        invariant |nodes| == j * multiplier + i && index == 2 + |nodes|
        invariant forall k :: 0 <= k < |nodes| ==>
          k / multiplier < |conss| && nodes[k] == TargetNode(true, exec, conss, multiplier, k)
      {
        QuotientIs(|nodes|, j, multiplier, i);
        nodes := nodes + [BuildNode(index, exec, conss[j])];
        index := index + 1;
      }
    }
  }

  method ComposeNodesForClTesting(multiplier: nat, cons: ClientVersion, execs: seq<ClientVersion>)
    returns (nodes: seq<Node>)
    requires multiplier > 0
    ensures AreTargets(nodes, false, cons, execs, multiplier)
  {
    nodes := [];
    var index: nat := 2;
    for j := 0 to |execs|
      invariant |nodes| == j * multiplier && index == 2 + |nodes|
      invariant forall k :: 0 <= k < |nodes| ==>
        k / multiplier < |execs| && nodes[k] == TargetNode(false, cons, execs, multiplier, k)
    {
      for i := 0 to multiplier
        invariant |nodes| == j * multiplier + i && index == 2 + |nodes|
        invariant forall k :: 0 <= k < |nodes| ==>
          k / multiplier < |execs| && nodes[k] == TargetNode(false, cons, execs, multiplier, k)
      {
        QuotientIs(|nodes|, j, multiplier, i);
        nodes := nodes + [BuildNode(index, execs[j], cons)];
        index := index + 1;
      }
    }
  }

  lemma QuotientIs(k: int, q: int, d: int, r: int)
    requires d > 0 && 0 <= r < d && k == q * d + r
    ensures k / d == q && k % d == r
  {
    var q', r' := k / d, k % d;
    assert k == d * q' + r';
    SameQuotient(q, q', d, r, r');
  }

  lemma SameQuotient(q: int, q': int, d: int, r: int, r': int)
    requires 0 <= r < d && 0 <= r' < d && q * d + r == d * q' + r'
    ensures q == q' && r == r'
  {
    if q > q' {
      MulMonotone(q' + 1, q, d);
    } else if q < q' {
      MulMonotone(q + 1, q', d);
    }
  }

  lemma MulMonotone(a: int, b: int, d: int)
    requires a <= b && d >= 0
    ensures a * d <= b * d
  {
    assert (b - a) * d >= 0;
  }

  /** How many nodes precede the row of execution client e in a pass over E. */
  ghost function RowStart(rowsPerPass: nat, rowLength: nat, pass: nat, e: nat): nat
    decreases pass, e
  {
    if e > 0 then RowStart(rowsPerPass, rowLength, pass, e - 1) + rowLength
    else if pass > 0 then RowStart(rowsPerPass, rowLength, pass - 1, rowsPerPass)
    else 0
  }

  lemma {:induction false} RowStartIs(rowsPerPass: nat, rowLength: nat, pass: nat, e: nat)
    ensures RowStart(rowsPerPass, rowLength, pass, e) == (pass * rowsPerPass + e) * rowLength
    decreases pass, e
  {
    if e > 0 {
      RowStartIs(rowsPerPass, rowLength, pass, e - 1);
      var rows := pass * rowsPerPass + e - 1;
      assert (rows + 1) * rowLength == rows * rowLength + rowLength;
    } else if pass > 0 {
      RowStartIs(rowsPerPass, rowLength, pass - 1, rowsPerPass);
      assert (pass - 1) * rowsPerPass + rowsPerPass == pass * rowsPerPass;
    }
  }

  /** The innermost loop: one execution client with each consensus client but the target, until the count is
      reached. */
  method AppendRow(
    before: seq<Node>, start: nat, nodeCount: int, exec: ClientVersion, conss: seq<ClientVersion>, target: string,
    ghost E: seq<ClientVersion>, ghost pass: nat, ghost e: nat)
    returns (nodes: seq<Node>, exit: bool)
    requires e < |E| && E[e] == exec && |before| < nodeCount
    requires |before| == RowStart(|E|, |Others(conss, target)|, pass, e)
    requires AreFillers(before, start, E, Others(conss, target))
    ensures AreFillers(nodes, start, E, Others(conss, target))
    ensures |before| < |nodes| && (if exit then |nodes| == nodeCount else |nodes| < nodeCount)
    ensures !exit ==> |nodes| == RowStart(|E|, |Others(conss, target)|, pass, e + 1)
  {
    ghost var C := Others(conss, target);
    nodes := before;
    for c := 0 to |conss|
      invariant |nodes| < nodeCount
      invariant |nodes| == |before| + |Others(conss[..c], target)|
      invariant AreFillers(nodes, start, E, C)
    {
      OthersPrefix(conss, target, c);
      if conss[c].name == target {
        continue;
      }
      AddFiller(nodes, start, E, C, pass, e, |Others(conss[..c], target)|);
      nodes := nodes + [BuildNode(start + |nodes|, exec, conss[c])];
      if |nodes| == nodeCount {
        return nodes, true;
      }
    }
    assert conss[..|conss|] == conss;
    exit := false;
  }

  /** The triple loop with the labelled exit. It can only be called where it returns; `ReturnsIff` shows that
      these are all the calls that return. */
  method PickExtraNodeClients(
    start: nat, nodeCount: int, target: string, execs: seq<ClientVersion>, conss: seq<ClientVersion>)
    returns (nodes: seq<Node>)
    requires nodeCount >= 1 && Others(execs, target) != [] && Others(conss, target) != []
    ensures |nodes| == nodeCount
    ensures AreFillers(nodes, start, Others(execs, target), Others(conss, target))
  {
    ghost var E, C := Others(execs, target), Others(conss, target);
    nodes := [];
    ghost var pass: nat := 0;
    label Exit:
    while true
      invariant |nodes| < nodeCount
      invariant |nodes| == RowStart(|E|, |C|, pass, 0)
      invariant AreFillers(nodes, start, E, C)
      decreases nodeCount - |nodes|
    {
      ghost var first := |nodes|;
      for e := 0 to |execs|
        invariant first <= |nodes| < nodeCount && (Others(execs[..e], target) != [] ==> first < |nodes|)
        invariant |nodes| == RowStart(|E|, |C|, pass, |Others(execs[..e], target)|)
        invariant AreFillers(nodes, start, E, C)
      {
        OthersPrefix(execs, target, e);
        if execs[e].name == target {
          continue;
        }
        var exit;
        nodes, exit := AppendRow(
          nodes, start, nodeCount, execs[e], conss, target, E, pass, |Others(execs[..e], target)|);
        if exit {
          break Exit;
        }
      }
      assert execs[..|execs|] == execs;
      pass := pass + 1;
    }
  }

  lemma AddFiller(
    nodes: seq<Node>, start: nat, E: seq<ClientVersion>, C: seq<ClientVersion>, pass: nat, e: nat, c: nat)
    requires AreFillers(nodes, start, E, C) && e < |E| && c < |C|
    requires |nodes| == RowStart(|E|, |C|, pass, e) + c
    ensures AreFillers(nodes + [BuildNode(start + |nodes|, E[e], C[c])], start, E, C)
  {
    RowStartIs(|E|, |C|, pass, e);
    QuotientIs(|nodes|, pass * |E| + e, |C|, c);
    QuotientIs(pass * |E| + e, pass, |E|, e);
  }

  /** How the candidates grow with the list: a client other than the target takes the next position. */
  lemma {:induction false} OthersPrefix(clients: seq<ClientVersion>, target: string, i: nat)
    requires i < |clients|
    ensures Others(clients[..i + 1], target) ==
      Others(clients[..i], target) + if clients[i].name == target then [] else [clients[i]]
    ensures Others(clients[..i + 1], target) <= Others(clients, target)
    decreases |clients|
  {
    assert clients[..i + 1][..i] == clients[..i];
    var n := |clients| - 1;
    if i == n {
      assert clients[..i + 1] == clients;
    } else {
      OthersPrefix(clients[..n], target, i);
      assert clients[..n][..i + 1] == clients[..i + 1];
    }
  }
}
