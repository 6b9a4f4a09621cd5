/** BuildPlan of pkg/plan/plan.go: the topology, the suite over all nodes but the bootnode, and the network file. */
module Planner {
  import opened Common
  import opened Strings
  import opened NetworkBuilder
  import opened NetworkTopology
  import opened NodeIds
  import opened Targeting
  import opened Suite
  import opened SuiteProofs
  import opened Serialization

  datatype PlannerConfig = PlannerConfig(
    topology: TopologyRequest, faultType: FaultType, configs: seq<FaultConfig>,
    dimensions: seq<TargetingSpec>, sizes: seq<AttackSize>, parse: (FaultType, FaultConfig) -> Option<int>)
  {
    /** The suite is composed for the target client over the nodes after the bootnode. */
    function SuiteFor(nodes: seq<Node>): SuiteRequest
      requires nodes != []
    {
      SuiteRequest(faultType, topology.target, topology.IsExec(), nodes[1..], configs, dimensions, sizes, parse)
    }
  }

  datatype Plan =
    | Written(network: seq<Participant>, tests: seq<SuiteTest>)
    | TopologyFailed(topologyError: TopologyError)
    | TopologyHangs
    | SuiteFailed(failure: Failure)

  method BuildPlan(config: PlannerConfig) returns (plan: Plan, ghost nodes: seq<Node>)
    ensures plan.TopologyFailed? <==> !config.topology.Acceptable()
    ensures plan.TopologyFailed? ==> config.topology.Explains(plan.topologyError)
    ensures plan.TopologyHangs? <==> config.topology.Acceptable() && config.topology.NeverComposed()
    ensures plan.Written? || plan.SuiteFailed? ==> config.topology.Plans(nodes)
    ensures plan.Written? ==>
      && SuiteTests(config.SuiteFor(nodes), config.dimensions) == Ok(plan.tests)
      && |plan.network| == |nodes|
      && forall i :: 0 <= i < |nodes| ==> plan.network[i] == Serialized(nodes[i])
    ensures plan.SuiteFailed? ==> SuiteTests(config.SuiteFor(nodes), config.dimensions) == Err(plan.failure)
  {
    nodes := [];
    var topology := ComposeNetworkTopology(config.topology);
    match topology
    case Rejected(e) => plan := TopologyFailed(e);
    case Hangs =>
      HangsIff(config.topology);
      plan := TopologyHangs;
    case Done(planned) =>
      if config.topology.topology.percent != 0.0 {
        HangsIff(config.topology);
      }
      nodes := planned;
      var tests := ComposeTestSuite(config.SuiteFor(planned));
      if tests.Err? {
        plan := SuiteFailed(tests.error);
      } else {
        var participants := SerializeNodes(planned);
        plan := Written(participants[..], tests.value);
      }
  }

  // ---------------------------------------------------------------- targets of a planned network

  lemma {:induction false} FilterKeepsPrefix(nodes: seq<Node>, criteria: Node -> bool, t: nat)
    requires t <= |nodes| && forall i :: 0 <= i < |nodes| ==> (criteria(nodes[i]) <==> i < t)
    ensures Filtered(nodes, criteria) == nodes[..t]
  {
    if nodes != [] {
      var n := |nodes| - 1;
      var t' := if t <= n then t else n;
      FilterKeepsPrefix(nodes[..n], criteria, t');
      assert nodes[..n][..t'] == nodes[..t'];
      assert nodes[..n] + [nodes[n]] == nodes;
    }
  }

  /** Node numbers are positions, and the nodes that match the target client are the T >= 1 nodes after the
      bootnode. */
  ghost predicate Shaped(req: TopologyRequest, nodes: seq<Node>) {
    && 1 <= req.TargetCount() < |nodes|
    && (forall i :: 0 <= i < |nodes| ==> nodes[i].index == i + 1)
    && Filtered(nodes[1..], ClientCriteria(req.IsExec(), req.target)) == nodes[1..req.TargetCount() + 1]
  }

  lemma PlannedIsShaped(req: TopologyRequest, nodes: seq<Node>)
    requires req.Plans(nodes)
    ensures Shaped(req, nodes)
  {
    SomeTarget(req);
    var criteria := ClientCriteria(req.IsExec(), req.target);
    forall i | 0 <= i < |nodes|
      ensures nodes[i].index == i + 1
      ensures 1 <= i ==> (criteria(nodes[i]) <==> i <= req.TargetCount())
    {
      NodePlaces(req, nodes, i);
    }
    FilterKeepsPrefix(nodes[1..], criteria, req.TargetCount());
    assert nodes[1..][..req.TargetCount()] == nodes[1..req.TargetCount() + 1];
  }

  /** On a planned network no attack size runs past the targetable nodes or finds none, and what it chooses are
      the first nodes after the bootnode. */
  lemma PlannedChoices(req: TopologyRequest, nodes: seq<Node>, size: AttackSize)
    requires req.Plans(nodes)
    ensures var c := SelectionFor(req.IsExec(), req.target, size, |nodes|, nodes[1..]);
      && (c.CannotMeet? || c.Chosen?)
      && (c.Chosen? ==>
            && 1 <= |c.value| <= req.TargetCount() < |nodes| && c.value == nodes[1..1 + |c.value|]
            && Meets(size, |c.value|, |nodes|, req.TargetCount()))
  {
    PlannedIsShaped(req, nodes);
    ShapedChoices(req, nodes, size);
  }

  lemma ShapedChoices(req: TopologyRequest, nodes: seq<Node>, size: AttackSize)
    requires Shaped(req, nodes)
    ensures var c := SelectionFor(req.IsExec(), req.target, size, |nodes|, nodes[1..]);
      && (c.CannotMeet? || c.Chosen?)
      && (c.Chosen? ==>
            && 1 <= |c.value| <= req.TargetCount() && c.value == nodes[1..1 + |c.value|]
            && Meets(size, |c.value|, |nodes|, req.TargetCount()))
  {
    var targetable := nodes[1..req.TargetCount() + 1];
    ChoiceIff(size, |nodes|, targetable);
    if Selection(size, |nodes|, targetable).Chosen? {
      PrefixOfSlice(nodes, req.TargetCount(), |Selection(size, |nodes|, targetable).value|);
    }
  }

  lemma PrefixOfSlice(nodes: seq<Node>, t: nat, k: nat)
    requires k <= t < |nodes|
    ensures nodes[1..t + 1][..k] == nodes[1..1 + k]
  {
  }

  // ---------------------------------------------------------------- pods hit by a planned suite

  /** The selectors of the first k nodes after the bootnode, at the level of a targeting dimension. */
  function FirstSelectors(config: PlannerConfig, nodes: seq<Node>, dimension: TargetingSpec, k: nat)
    : seq<TargetSelector>
    requires k < |nodes|
  {
    Selectors(dimension.MatchingNode?, config.topology.IsExec(), |nodes|, nodes[1..1 + k])
  }

  /** The test injects into the first k nodes after the bootnode, then waits for the faults. */
  ghost predicate HitsFirst(config: PlannerConfig, nodes: seq<Node>, test: SuiteTest, k: nat) {
    && 1 <= k < |nodes|
    && var steps := InjectSteps(config.faultType, test.config, FirstSelectors(config, nodes, test.dimension, k));
       steps.Ok? && test.steps == steps.value + [WaitForFaultCompletion]
  }

  /** Every test of a planned suite injects into a run of nodes that starts right after the bootnode, as many as its
      attack size stands for in the whole network, and ends with a wait for the faults. */
  lemma PlannedTestShape(config: PlannerConfig, nodes: seq<Node>, test: SuiteTest) returns (k: nat)
    requires config.topology.Plans(nodes)
    requires SuiteTests(config.SuiteFor(nodes), config.dimensions).Ok?
    requires test in SuiteTests(config.SuiteFor(nodes), config.dimensions).value
    ensures k <= config.topology.TargetCount() && HitsFirst(config, nodes, test, k)
    ensures Meets(test.size, k, |nodes|, config.topology.TargetCount())
  {
    PlannedIsShaped(config.topology, nodes);
    TestsWereAskedFor(config.SuiteFor(nodes), config.dimensions, test);
    k := ShapeOf(config, nodes, test);
  }

  /** What an attack size selects in a planned network. */
  lemma PlannedSelectors(config: PlannerConfig, nodes: seq<Node>, dimension: TargetingSpec, size: AttackSize)
    returns (k: nat)
    requires Shaped(config.topology, nodes)
    ensures 1 <= k <= config.topology.TargetCount()
    ensures var s := config.SuiteFor(nodes).SelectorsOf(dimension, size);
      || s.CannotMeet?
      || (s == Choice.Chosen(FirstSelectors(config, nodes, dimension, k))
          && Meets(size, k, |nodes|, config.topology.TargetCount()))
  {
    ShapedChoices(config.topology, nodes, size);
    var c := SelectionFor(config.topology.IsExec(), config.topology.target, size, |nodes|, nodes[1..]);
    k := if c.Chosen? then |c.value| else 1;
    SelectorsOfChoice(config, nodes, dimension, size, c);
  }

  lemma SelectorsOfChoice(
    config: PlannerConfig, nodes: seq<Node>, dimension: TargetingSpec, size: AttackSize, c: Choice<seq<Node>>)
    requires nodes != []
    requires c == SelectionFor(config.topology.IsExec(), config.topology.target, size, |nodes|, nodes[1..])
    ensures var s := config.SuiteFor(nodes).SelectorsOf(dimension, size);
      && (c.CannotMeet? ==> s.CannotMeet?)
      && (c.Chosen? ==>
            s == Choice.Chosen(
                   Selectors(dimension.MatchingNode?, config.topology.IsExec(), |nodes|, c.value)))
  {
    assert |nodes[1..]| + 1 == |nodes|;
  }

  lemma ShapeOf(config: PlannerConfig, nodes: seq<Node>, test: SuiteTest) returns (k: nat)
    requires Shaped(config.topology, nodes)
    requires IsTestFor(config.SuiteFor(nodes), test.dimension, test.size, test.config, test)
    ensures k <= config.topology.TargetCount() && HitsFirst(config, nodes, test, k)
    ensures Meets(test.size, k, |nodes|, config.topology.TargetCount())
  {
    k := PlannedSelectors(config, nodes, test.dimension, test.size);
    assert TargetsOf(config.SuiteFor(nodes), test.dimension, test.size)
      == FirstSelectors(config, nodes, test.dimension, k);
  }

  lemma HitsOfShape(config: PlannerConfig, nodes: seq<Node>, test: SuiteTest, k: nat)
    requires HitsFirst(config, nodes, test, k)
    ensures HitIds(test.steps) == AllHits(config.faultType, FirstSelectors(config, nodes, test.dimension, k))
  {
    var selectors := FirstSelectors(config, nodes, test.dimension, k);
    HitsOfTest(config.faultType, test.config, selectors);
    HitsThenWait(InjectSteps(config.faultType, test.config, selectors).value);
  }

  /** Which pods a test of a planned suite hits: all pods of its nodes, or only those of the client under test. */
  lemma PlannedHitsIff(config: PlannerConfig, nodes: seq<Node>, test: SuiteTest, k: nat, id: string)
    requires config.topology.Plans(nodes) && HitsFirst(config, nodes, test, k)
    ensures id in HitIds(test.steps) <==>
      exists i :: 1 <= i <= k
        && HitsPodOf(test.dimension.MatchingNode?, config.topology.IsExec(), |nodes|, nodes[i], id)
  {
    HitsOfShape(config, nodes, test, k);
    AllHitsIff(
      config.faultType, test.dimension.MatchingNode?, config.topology.IsExec(), |nodes|, nodes[1..1 + k], id);
    SliceMembers(nodes, k, nodes[1..1 + k]);
  }

  /** The pods hit at the level of the client run the client under test, and there is one on every target node. */
  lemma PlannedClientPods(req: TopologyRequest, nodes: seq<Node>, i: nat)
    requires req.Plans(nodes) && 1 <= i <= req.TargetCount()
    ensures i < |nodes|
    ensures forall kind: ClientKind :: IsHit(false, req.IsExec(), nodes[i], kind) ==>
      ClientOf(nodes[i], kind) == req.target
    ensures IsHit(false, req.IsExec(), nodes[i], if req.IsExec() then Execution else Consensus)
    ensures HitsPodOf(false, req.IsExec(), |nodes|, nodes[i],
      NodeIdTag(|nodes|, nodes[i], if req.IsExec() then Execution else Consensus))
  {
    NodePlaces(req, nodes, i);
    ClientPodsHit(req.IsExec(), req.target, |nodes|, nodes[i]);
  }

  lemma SliceMembers(nodes: seq<Node>, k: nat, hit: seq<Node>)
    requires k < |nodes| && hit == nodes[1..1 + k]
    ensures forall i :: 1 <= i <= k ==> nodes[i] in hit
    ensures forall t :: t in hit ==> exists i :: 1 <= i <= k && nodes[i] == t
  {
    forall i | 1 <= i <= k
      ensures nodes[i] in hit
    {
      assert hit[i - 1] == nodes[i];
    }
  }

  /** The id is that of a pod of one of the nodes to be hit. */
  ghost predicate HitsSome(wholeNode: bool, isExec: bool, count: nat, nodes: seq<Node>, id: string) {
    exists t :: t in nodes && HitsPodOf(wholeNode, isExec, count, t, id)
  }

  lemma HitsSomeIff(wholeNode: bool, isExec: bool, count: nat, nodes: seq<Node>, id: string)
    requires nodes != []
    ensures HitsSome(wholeNode, isExec, count, nodes, id)
      <==> HitsPodOf(wholeNode, isExec, count, nodes[0], id) || HitsSome(wholeNode, isExec, count, nodes[1..], id)
  {
    assert nodes == [nodes[0]] + nodes[1..];
  }

  /** The ids hit are those of the pods selected, however often each is hit. */
  lemma {:induction false} AllHitsIff(
    faultType: FaultType, wholeNode: bool, isExec: bool, count: nat, targets: seq<Node>, id: string)
    ensures id in AllHits(faultType, Selectors(wholeNode, isExec, count, targets))
      <==> HitsSome(wholeNode, isExec, count, targets, id)
  {
    var selectors := Selectors(wholeNode, isExec, count, targets);
    if targets != [] {
      assert selectors[1..] == Selectors(wholeNode, isExec, count, targets[1..]);
      AllHitsIff(faultType, wholeNode, isExec, count, targets[1..], id);
      TargetHitsIff(faultType, wholeNode, isExec, count, targets[0], id);
      HitsSomeIff(wholeNode, isExec, count, targets, id);
      assert AllHits(faultType, selectors) == TargetHits(faultType, selectors[0]) + AllHits(faultType, selectors[1..]);
    }
  }

  lemma TargetHitsIff(faultType: FaultType, wholeNode: bool, isExec: bool, count: nat, node: Node, id: string)
    ensures id in TargetHits(faultType, TargetSelectorFor(wholeNode, isExec, count, node))
      <==> HitsPodOf(wholeNode, isExec, count, node, id)
  {
    var ids := TargetIds(wholeNode, isExec, count, node);
    IdsOfSingle(TargetSelectorFor(wholeNode, isExec, count, node).selector);
    RepeatMembers(ids, |ids|);
    TargetIdsExact(wholeNode, isExec, count, node, id);
  }

  /** No test of a planned suite hits a pod of the bootnode: every id it hits belongs to a later node. */
  lemma BootnodeNeverHit(config: PlannerConfig, nodes: seq<Node>, test: SuiteTest, id: string, kind: ClientKind)
    requires config.topology.Plans(nodes)
    requires SuiteTests(config.SuiteFor(nodes), config.dimensions).Ok?
    requires test in SuiteTests(config.SuiteFor(nodes), config.dimensions).value
    requires id in HitIds(test.steps)
    ensures id != NodeIdTag(|nodes|, nodes[0], kind)
  {
    var k := PlannedTestShape(config, nodes, test);
    PlannedIsShaped(config.topology, nodes);
    LaterNodesHit(config, nodes, test, k, id, kind);
  }

  lemma LaterNodesHit(
    config: PlannerConfig, nodes: seq<Node>, test: SuiteTest, k: nat, id: string, kind: ClientKind)
    requires Shaped(config.topology, nodes) && HitsFirst(config, nodes, test, k)
    requires id in HitIds(test.steps)
    ensures id != NodeIdTag(|nodes|, nodes[0], kind)
  {
    HitsOfShape(config, nodes, test, k);
    var wholeNode, isExec := test.dimension.MatchingNode?, config.topology.IsExec();
    AllHitsIff(config.faultType, wholeNode, isExec, |nodes|, nodes[1..1 + k], id);
    var t :| t in nodes[1..1 + k] && HitsPodOf(wholeNode, isExec, |nodes|, t, id);
    var l: ClientKind :| IsHit(wholeNode, isExec, t, l) && id == NodeIdTag(|nodes|, t, l);
    SliceMembers(nodes, k, nodes[1..1 + k]);
    if id == NodeIdTag(|nodes|, nodes[0], kind) {
      TagIsInjective(|nodes|, t, l, nodes[0], kind);
    }
  }

  lemma {:induction false} RepeatMembers(ids: seq<string>, n: nat)
    ensures forall id :: id in Repeat(ids, n) <==> id in ids && n > 0
  {
    if n > 0 {
      RepeatMembers(ids, n - 1);
    }
  }

  /** A test of a planned suite hits no pod twice, unless it is an i/o fault on targets of several pods. */
  lemma PlannedPodsHitOnceIff(config: PlannerConfig, nodes: seq<Node>, test: SuiteTest, k: nat)
    requires config.topology.Plans(nodes) && HitsFirst(config, nodes, test, k)
    ensures NoDuplicates(HitIds(test.steps)) <==>
      !config.faultType.IOLatency? || forall n :: n in nodes[1..1 + k] ==>
        !test.dimension.MatchingNode? && (config.topology.IsExec() || !n.consensus.hasValidatorSidecar)
  {
    PlannedIsShaped(config.topology, nodes);
    HitsOfShape(config, nodes, test, k);
    DistinctNumbers(nodes, k);
    NoPodHitTwiceIff(
      config.faultType, test.dimension.MatchingNode?, config.topology.IsExec(), |nodes|, nodes[1..1 + k]);
  }

  lemma DistinctNumbers(nodes: seq<Node>, k: nat)
    requires k < |nodes| && forall i :: 0 <= i < |nodes| ==> nodes[i].index == i + 1
    ensures DistinctIndices(nodes[1..1 + k])
  {
    var hit := nodes[1..1 + k];
    assert forall i :: 0 <= i < k ==> hit[i].index == i + 2;
  }

  // ---------------------------------------------------------------- when a plan is written

  /** An i/o fault can be built for every pod id of the network. */
  ghost predicate VolumesKnown(nodes: seq<Node>) {
    forall n: Node, kind: ClientKind :: n in nodes ==> VolumePath(NodeIdTag(|nodes|, n, kind)).Ok?
  }

  /** The fault settings are well formed and, for i/o faults, no pod id looks like a validator's. */
  ghost predicate FaultsWellFormed(config: PlannerConfig, nodes: seq<Node>) {
    && !config.faultType.UnknownFault?
    && (forall c :: c in config.configs ==> config.parse(config.faultType, c).Some?)
    && (config.faultType.IOLatency? ==> VolumesKnown(nodes))
  }

  /** A planned network, supported dimensions and well-formed faults are enough for a suite. */
  lemma PlannedSuiteSucceeds(config: PlannerConfig, nodes: seq<Node>)
    requires config.topology.Plans(nodes) && FaultsWellFormed(config, nodes)
    requires forall d :: d in config.dimensions ==> !d.UnsupportedSpec?
    ensures SuiteTests(config.SuiteFor(nodes), config.dimensions).Ok?
  {
    PlannedIsShaped(config.topology, nodes);
    DimensionsSucceed(config, nodes, config.dimensions);
  }

  lemma {:induction false} DimensionsSucceed(config: PlannerConfig, nodes: seq<Node>, dimensions: seq<TargetingSpec>)
    requires Shaped(config.topology, nodes) && FaultsWellFormed(config, nodes)
    requires forall d :: d in dimensions ==> !d.UnsupportedSpec?
    ensures SuiteTests(config.SuiteFor(nodes), dimensions).Ok?
    decreases |dimensions|
  {
    if dimensions != [] {
      DimensionSucceeds(config, nodes, dimensions[0], config.sizes, {});
      DimensionsSucceed(config, nodes, dimensions[1..]);
    }
  }

  lemma {:induction false} DimensionSucceeds(
    config: PlannerConfig, nodes: seq<Node>, dimension: TargetingSpec, sizes: seq<AttackSize>, tested: set<nat>)
    requires Shaped(config.topology, nodes) && FaultsWellFormed(config, nodes)
    ensures DimensionTests(config.SuiteFor(nodes), dimension, sizes, tested).Ok?
    decreases |sizes|
  {
    if sizes != [] {
      var after := TestedAfter(config.SuiteFor(nodes), dimension, sizes[0], tested);
      DimensionSucceeds(config, nodes, dimension, sizes[1..], after);
      SizeSucceeds(config, nodes, dimension, sizes[0], tested);
    }
  }

  lemma SizeSucceeds(
    config: PlannerConfig, nodes: seq<Node>, dimension: TargetingSpec, size: AttackSize, tested: set<nat>)
    requires Shaped(config.topology, nodes) && FaultsWellFormed(config, nodes)
    ensures SizeTests(config.SuiteFor(nodes), dimension, size, tested).Ok?
  {
    var k := PlannedSelectors(config, nodes, dimension, size);
    ChosenSucceeds(config, nodes, dimension, k);
    ChoiceSucceeds(
      config.SuiteFor(nodes), dimension, size, config.SuiteFor(nodes).SelectorsOf(dimension, size), tested);
  }

  lemma ChoiceSucceeds(
    req: SuiteRequest, dimension: TargetingSpec, size: AttackSize, choice: Choice<seq<TargetSelector>>,
    tested: set<nat>)
    requires !req.faultType.UnknownFault? && (choice.CannotMeet? || choice.Chosen?)
    requires choice.Chosen? ==> forall c :: c in req.configs ==>
      req.parse(req.faultType, c).Some? && InjectSteps(req.faultType, c, choice.value).Ok?
    ensures ChoiceTests(req, dimension, size, choice, tested).Ok?
  {
    if choice.Chosen? {
      TestsSucceed(req, dimension, size, choice.value, req.configs);
    }
  }

  lemma ChosenSucceeds(config: PlannerConfig, nodes: seq<Node>, dimension: TargetingSpec, k: nat)
    requires k < |nodes| && FaultsWellFormed(config, nodes)
    ensures forall fault :: fault in config.configs ==>
      InjectSteps(config.faultType, fault, FirstSelectors(config, nodes, dimension, k)).Ok?
  {
    forall fault | fault in config.configs
      ensures InjectSteps(config.faultType, fault, FirstSelectors(config, nodes, dimension, k)).Ok?
    {
      NodesAreInjectable(config.faultType, dimension.MatchingNode?, config.topology.IsExec(), nodes, nodes[1..1 + k]);
      InjectStepsIff(config.faultType, fault, FirstSelectors(config, nodes, dimension, k));
    }
  }

  lemma {:induction false} TestsSucceed(
    req: SuiteRequest, dimension: TargetingSpec, size: AttackSize, targets: seq<TargetSelector>,
    configs: seq<FaultConfig>)
    requires !req.faultType.UnknownFault?
    requires forall c :: c in configs ==>
      req.parse(req.faultType, c).Some? && InjectSteps(req.faultType, c, targets).Ok?
    ensures TestsFor(req, dimension, size, targets, configs).Ok?
  {
    if configs != [] {
      assert configs[0] in configs;
      TestsSucceed(req, dimension, size, targets, configs[1..]);
    }
  }

  /** The selectors of nodes of the network can be injected into. */
  lemma NodesAreInjectable(faultType: FaultType, wholeNode: bool, isExec: bool, nodes: seq<Node>, targets: seq<Node>)
    requires forall n :: n in targets ==> n in nodes
    requires faultType.IOLatency? ==> VolumesKnown(nodes)
    ensures Injectable(faultType, Selectors(wholeNode, isExec, |nodes|, targets))
  {
    var selectors := Selectors(wholeNode, isExec, |nodes|, targets);
    if faultType.IOLatency? {
      forall t, e | t in selectors && e in t.selector
        ensures Mountable(e)
      {
        var i :| 0 <= i < |selectors| && selectors[i] == t;
        assert targets[i] in targets;
        NodeIsMountable(wholeNode, isExec, nodes, targets[i], e);
      }
    }
  }

  lemma NodeIsMountable(wholeNode: bool, isExec: bool, nodes: seq<Node>, node: Node, e: ExpressionSelector)
    requires node in nodes && VolumesKnown(nodes)
    requires e in TargetSelectorFor(wholeNode, isExec, |nodes|, node).selector
    ensures Mountable(e)
  {
    forall id | id in e.values
      ensures VolumePath(id).Ok?
    {
      IdsOfOneNode(wholeNode, isExec, |nodes|, node);
      var kind: ClientKind :| id == NodeIdTag(|nodes|, node, kind);
    }
  }

  // ---------------------------------------------------------------- pod ids of i/o faults

  /** A pod id of the planner always has enough parts for getVolumePathForIOFault; it is refused exactly when
      the last hyphen-separated part of its second client name is "validator". */
  lemma VolumeRefusedIff(count: nat, node: Node, kind: ClientKind)
    ensures var last := if kind.Execution? then node.consensus.kind else node.execution.kind;
      var r := VolumePath(NodeIdTag(count, node, kind));
      && (r.Ok? || r == Err(ValidatorPod))
      && (r == Err(ValidatorPod) <==> Split(last, '-')[|Split(last, '-')| - 1] == "validator")
  {
    match kind
    case Execution => VolumeOfTag(count, node, kind, "el", node.execution.kind, node.consensus.kind);
    case Consensus => VolumeOfTag(count, node, kind, "cl", node.consensus.kind, node.execution.kind);
    case Validator => VolumeOfTag(count, node, kind, "val", node.consensus.kind, node.execution.kind);
  }

  /** The volume of a planner-built pod: that of the client it runs, up to the first hyphen of the client's name. */
  lemma VolumePathOf(count: nat, node: Node, kind: ClientKind)
    requires VolumePath(NodeIdTag(count, node, kind)).Ok?
    ensures VolumePath(NodeIdTag(count, node, kind)).value
      == "/data/" + Split(ClientOf(node, kind), '-')[0]
           + (if kind == Execution then "/execution-data" else "/consensus-data")
    ensures Split(ClientOf(node, kind), '-')[0] == ClientOf(node, kind) <==> '-' !in ClientOf(node, kind)
  {
    hide Split, VolumePath, NodeIdTag;
    var number := TagReads(count, node, kind);
    var client := ClientOf(node, kind);
    assert '-' !in number;
    FirstPartIff(client);
    match kind
    case Execution => VolumeOf("el", number, client, node.consensus.kind, NodeIdTag(count, node, kind));
    case Consensus => VolumeOf("cl", number, client, node.execution.kind, NodeIdTag(count, node, kind));
    case Validator => VolumeOf("val", number, client, node.execution.kind, NodeIdTag(count, node, kind));
  }

  lemma VolumeOf(prefix: string, number: string, client: string, partner: string, tag: string)
    requires tag == (prefix + "-") + (number + "-" + (client + "-" + partner))
    requires '-' !in prefix && '-' !in number && VolumePath(tag).Ok?
    ensures VolumePath(tag).value
      == "/data/" + Split(client, '-')[0] + (if prefix == "el" then "/execution-data" else "/consensus-data")
  {
    hide Split;
    PartsInOrder(prefix, number, client, partner, tag);
    var parts := Split(tag, '-');
    assert parts[0] == prefix && parts[2] == Split(client, '-')[0];
  }

  lemma PartsInOrder(prefix: string, number: string, client: string, partner: string, tag: string)
    requires tag == (prefix + "-") + (number + "-" + (client + "-" + partner))
    requires '-' !in prefix && '-' !in number
    ensures Split(tag, '-') == [prefix] + ([number] + (Split(client, '-') + Split(partner, '-')))
  {
    hide Split;
    var names := client + ['-'] + partner;
    var rest := number + ['-'] + names;
    assert tag == prefix + ['-'] + rest;
    SplitConcat(prefix, rest, '-');
    SplitConcat(number, names, '-');
    SplitConcat(client, partner, '-');
    OnePart(prefix);
    OnePart(number);
  }

  lemma FirstPartIff(s: string)
    ensures Split(s, '-')[0] == s <==> '-' !in s
  {
    hide Split;
    if '-' !in s {
      OnePart(s);
    }
  }

  lemma OnePart(s: string)
    requires '-' !in s
    ensures Split(s, '-') == [s]
  {
    JoinSplit(s, '-');
  }

  lemma VolumeOfTag(count: nat, node: Node, kind: ClientKind, prefix: string, first: string, last: string)
    requires Prefix(kind) == prefix + "-" && Names(kind, node) == first + "-" + last
    ensures var r := VolumePath(NodeIdTag(count, node, kind));
      && (r.Ok? || r == Err(ValidatorPod))
      && (r == Err(ValidatorPod) <==> Split(last, '-')[|Split(last, '-')| - 1] == "validator")
  {
    PartsOfTag(prefix, NodeNumber(count, node.index), first, last, NodeIdTag(count, node, kind));
    LastPartDecides(NodeIdTag(count, node, kind));
  }

  lemma PartsOfTag(prefix: string, number: string, first: string, last: string, tag: string)
    requires tag == (prefix + "-") + (number + "-" + (first + "-" + last))
    ensures |Split(tag, '-')| >= 4
    ensures Split(tag, '-')[|Split(tag, '-')| - 1] == Split(last, '-')[|Split(last, '-')| - 1]
  {
    hide Split;
    var names := first + ['-'] + last;
    var rest := number + ['-'] + names;
    assert tag == prefix + ['-'] + rest;
    LastPartKept(prefix, rest);
    LastPartKept(number, names);
    LastPartKept(first, last);
    FourParts(Split(tag, '-'), Split(rest, '-'), Split(names, '-'), Split(last, '-'));
  }

  lemma LastPartDecides(pod: string)
    requires |Split(pod, '-')| >= 3
    ensures VolumePath(pod) == Err(ValidatorPod) <==> Split(pod, '-')[|Split(pod, '-')| - 1] == "validator"
    ensures VolumePath(pod).Ok? || VolumePath(pod) == Err(ValidatorPod)
  {
  }

  /** There are more parts, with the same last one. */
  ghost predicate SameLast(parts: seq<string>, rest: seq<string>) {
    rest != [] && |parts| > |rest| && parts[|parts| - 1] == rest[|rest| - 1]
  }

  lemma LastPartKept(a: string, b: string)
    ensures SameLast(Split(a + ['-'] + b, '-'), Split(b, '-'))
  {
    SplitConcat(a, b, '-');
  }

  lemma FourParts(a: seq<string>, b: seq<string>, c: seq<string>, d: seq<string>)
    requires SameLast(a, b) && SameLast(b, c) && SameLast(c, d)
    ensures |a| >= 4 && a[|a| - 1] == d[|d| - 1]
  {
  }
}
