/** What a generated test suite covers, how many tests it has, and which pods its tests hit. */
module SuiteProofs {
  import opened Common
  import opened NetworkBuilder
  import opened Targeting
  import opened Suite

  ghost predicate Chooses(req: SuiteRequest, dimension: TargetingSpec, size: AttackSize) {
    req.SelectorsOf(dimension, size).Chosen?
  }

  function TargetsOf(req: SuiteRequest, dimension: TargetingSpec, size: AttackSize): seq<TargetSelector>
    requires req.SelectorsOf(dimension, size).Chosen?
  {
    req.SelectorsOf(dimension, size).value
  }

  /** The test is the one composed for this size and configuration. */
  ghost predicate IsTestFor(
    req: SuiteRequest, dimension: TargetingSpec, size: AttackSize, config: FaultConfig, test: SuiteTest)
  {
    Chooses(req, dimension, size)
    && ComposedTest(req, dimension, size, config, TargetsOf(req, dimension, size)) == Ok(test)
  }

  /** Every choice is a prefix of the same list of matching nodes, so equal counts mean equal targets. */
  lemma SameCountSameTargets(req: SuiteRequest, dimension: TargetingSpec, a: AttackSize, b: AttackSize)
    requires Chooses(req, dimension, a) && Chooses(req, dimension, b)
    requires |TargetsOf(req, dimension, a)| == |TargetsOf(req, dimension, b)|
    ensures TargetsOf(req, dimension, a) == TargetsOf(req, dimension, b)
  {
    TargetsAreSelectors(req, dimension, a);
    TargetsAreSelectors(req, dimension, b);
    SameCountSameNodes(req.isExec, req.client, a, b, |req.nodes| + 1, req.nodes);
  }

  lemma TargetsAreSelectors(req: SuiteRequest, dimension: TargetingSpec, size: AttackSize)
    requires Chooses(req, dimension, size)
    ensures var c := SelectionFor(req.isExec, req.client, size, |req.nodes| + 1, req.nodes);
      && c.Chosen? && |TargetsOf(req, dimension, size)| == |c.value|
      && TargetsOf(req, dimension, size) == Selectors(dimension.MatchingNode?, req.isExec, |req.nodes| + 1, c.value)
  {
  }

  lemma SameCountSameNodes(isExec: bool, client: string, a: AttackSize, b: AttackSize, n: nat, nodes: seq<Node>)
    requires SelectionFor(isExec, client, a, n, nodes).Chosen? && SelectionFor(isExec, client, b, n, nodes).Chosen?
    requires |SelectionFor(isExec, client, a, n, nodes).value| == |SelectionFor(isExec, client, b, n, nodes).value|
    ensures SelectionFor(isExec, client, a, n, nodes) == SelectionFor(isExec, client, b, n, nodes)
  {
    ChosenIsPrefix(isExec, client, a, n, nodes);
    ChosenIsPrefix(isExec, client, b, n, nodes);
    SamePrefix(
      SelectionFor(isExec, client, a, n, nodes).value, SelectionFor(isExec, client, b, n, nodes).value,
      Filtered(nodes, ClientCriteria(isExec, client)));
  }

  lemma SamePrefix(x: seq<Node>, y: seq<Node>, all: seq<Node>)
    requires x <= all && y <= all && |x| == |y|
    ensures x == y
  {
  }

  // ---------------------------------------------------------------- targets

  /** What an attack size selects: the first of the nodes that run the client under test, as many as the size stands
      for in the whole network, and of each of them all pods or those of that client. */
  lemma TargetsExact(req: SuiteRequest, dimension: TargetingSpec, size: AttackSize) returns (matching: seq<Node>)
    requires Chooses(req, dimension, size)
    ensures IsFilter(req.nodes, matching, ClientCriteria(req.isExec, req.client))
    ensures forall n :: ClientCriteria(req.isExec, req.client)(n) <==>
      if req.isExec then n.execution.kind == req.client else n.consensus.kind == req.client
    ensures 1 <= |TargetsOf(req, dimension, size)| <= |matching|
    ensures Meets(size, |TargetsOf(req, dimension, size)|, |req.nodes| + 1, |matching|)
    ensures forall t :: t in TargetsOf(req, dimension, size) ==>
      |t.selector| == 1 && t.selector[0].key == "kurtosistech.com/id" && t.selector[0].operator == "In"
    ensures forall i, id :: 0 <= i < |TargetsOf(req, dimension, size)| ==>
      (id in IdsIn(TargetsOf(req, dimension, size)[i].selector)
       <==> HitsPodOf(dimension.MatchingNode?, req.isExec, |req.nodes| + 1, matching[i], id))
  {
    var n := |req.nodes| + 1;
    var c := SelectionFor(req.isExec, req.client, size, n, req.nodes);
    matching := Filtered(req.nodes, ClientCriteria(req.isExec, req.client));
    FilteredIsFilter(req.nodes, ClientCriteria(req.isExec, req.client));
    TargetsAreSelectors(req, dimension, size);
    SelectionForExact(req.isExec, req.client, size, n, req.nodes);
    SelectorIds(dimension.MatchingNode?, req.isExec, n, c.value);
    PrefixIds(dimension.MatchingNode?, req.isExec, n, matching, c.value, TargetsOf(req, dimension, size));
  }

  lemma PrefixIds(
    wholeNode: bool, isExec: bool, count: nat, matching: seq<Node>, chosen: seq<Node>, targets: seq<TargetSelector>)
    requires chosen <= matching && |targets| == |chosen|
    requires forall i, id :: 0 <= i < |chosen| ==>
      (id in IdsIn(targets[i].selector) <==> HitsPodOf(wholeNode, isExec, count, chosen[i], id))
    ensures forall i, id :: 0 <= i < |targets| ==>
      (id in IdsIn(targets[i].selector) <==> HitsPodOf(wholeNode, isExec, count, matching[i], id))
  {
    assert forall i :: 0 <= i < |chosen| ==> chosen[i] == matching[i];
  }

  lemma SelectionForExact(isExec: bool, client: string, size: AttackSize, n: nat, nodes: seq<Node>)
    requires n >= 1 && SelectionFor(isExec, client, size, n, nodes).Chosen?
    ensures var (chosen, matching) :=
        (SelectionFor(isExec, client, size, n, nodes).value, Filtered(nodes, ClientCriteria(isExec, client)));
      && chosen <= matching && 1 <= |chosen| <= |matching| && Meets(size, |chosen|, n, |matching|)
  {
    ChoiceIff(size, n, Filtered(nodes, ClientCriteria(isExec, client)));
  }

  lemma SelectorIds(wholeNode: bool, isExec: bool, count: nat, nodes: seq<Node>)
    ensures forall i, id :: 0 <= i < |nodes| ==>
      (id in IdsIn(Selectors(wholeNode, isExec, count, nodes)[i].selector)
       <==> HitsPodOf(wholeNode, isExec, count, nodes[i], id))
  {
    forall i, id | 0 <= i < |nodes|
      ensures id in IdsIn(Selectors(wholeNode, isExec, count, nodes)[i].selector)
        <==> HitsPodOf(wholeNode, isExec, count, nodes[i], id)
    {
      IdsOfSelector(wholeNode, isExec, count, nodes[i], id);
    }
  }

  lemma IdsOfSelector(wholeNode: bool, isExec: bool, count: nat, node: Node, id: string)
    ensures id in IdsIn(TargetSelectorFor(wholeNode, isExec, count, node).selector)
      <==> HitsPodOf(wholeNode, isExec, count, node, id)
  {
    IdsOfSingle(TargetSelectorFor(wholeNode, isExec, count, node).selector);
    TargetIdsExact(wholeNode, isExec, count, node, id);
  }

  // ---------------------------------------------------------------- coverage

  lemma {:induction false} ConfigsCovered(
    req: SuiteRequest, dimension: TargetingSpec, size: AttackSize, configs: seq<FaultConfig>, config: FaultConfig)
    returns (test: SuiteTest)
    requires Chooses(req, dimension, size) && config in configs
    requires TestsFor(req, dimension, size, TargetsOf(req, dimension, size), configs).Ok?
    ensures test in TestsFor(req, dimension, size, TargetsOf(req, dimension, size), configs).value
    ensures IsTestFor(req, dimension, size, config, test)
  {
    if configs[0] == config {
      test := ComposedTest(req, dimension, size, config, TargetsOf(req, dimension, size)).value;
    } else {
      test := ConfigsCovered(req, dimension, size, configs[1..], config);
    }
  }

  lemma {:induction false} SizesCovered(
    req: SuiteRequest, dimension: TargetingSpec, sizes: seq<AttackSize>, tested: set<nat>,
    size: AttackSize, config: FaultConfig)
    returns (test: SuiteTest, rep: AttackSize)
    requires DimensionTests(req, dimension, sizes, tested).Ok?
    requires size in sizes && config in req.configs && Chooses(req, dimension, size)
    requires |TargetsOf(req, dimension, size)| !in tested
    ensures test in DimensionTests(req, dimension, sizes, tested).value
    ensures rep in sizes && IsTestFor(req, dimension, rep, config, test)
    ensures TargetsOf(req, dimension, rep) == TargetsOf(req, dimension, size)
  {
    var k := |TargetsOf(req, dimension, size)|;
    if Chooses(req, dimension, sizes[0]) && |TargetsOf(req, dimension, sizes[0])| == k {
      rep := sizes[0];
      SameCountSameTargets(req, dimension, rep, size);
      test := ConfigsCovered(req, dimension, rep, req.configs, config);
    } else {
      var after := TestedAfter(req, dimension, sizes[0], tested);
      test, rep := SizesCovered(req, dimension, sizes[1..], after, size, config);
    }
  }

  /** Dropping attack sizes with an equal number of targets loses nothing: for every dimension, every attack
      size that can be met and every fault configuration, some test injects that configuration into exactly
      the targets that attack size would have chosen. */
  lemma {:induction false} DedupLosesNoCoverage(
    req: SuiteRequest, dimensions: seq<TargetingSpec>, dimension: TargetingSpec, size: AttackSize, config: FaultConfig)
    returns (test: SuiteTest, rep: AttackSize)
    requires SuiteTests(req, dimensions).Ok?
    requires dimension in dimensions && size in req.sizes && config in req.configs
    requires Chooses(req, dimension, size)
    ensures test in SuiteTests(req, dimensions).value
    ensures rep in req.sizes && IsTestFor(req, dimension, rep, config, test)
    ensures TargetsOf(req, dimension, rep) == TargetsOf(req, dimension, size)
  {
    if dimensions[0] == dimension {
      test, rep := SizesCovered(req, dimension, req.sizes, {}, size, config);
    } else {
      test, rep := DedupLosesNoCoverage(req, dimensions[1..], dimension, size, config);
    }
  }

  /** A test consists of the injections into the targets of its attack size, then the wait for the faults. */
  lemma TestShape(
    req: SuiteRequest, dimension: TargetingSpec, size: AttackSize, config: FaultConfig, test: SuiteTest)
    requires IsTestFor(req, dimension, size, config, test)
    ensures test.steps != [] && test.steps[|test.steps| - 1] == WaitForFaultCompletion
    ensures InjectSteps(req.faultType, config, TargetsOf(req, dimension, size)) == Ok(test.steps[..|test.steps| - 1])
  {
    StepsOf(req, dimension, size, config, TargetsOf(req, dimension, size), test);
  }

  lemma StepsOf(
    req: SuiteRequest, dimension: TargetingSpec, size: AttackSize, config: FaultConfig,
    targets: seq<TargetSelector>, test: SuiteTest)
    requires ComposedTest(req, dimension, size, config, targets) == Ok(test)
    ensures test.steps != [] && test.steps[|test.steps| - 1] == WaitForFaultCompletion
    ensures InjectSteps(req.faultType, config, targets) == Ok(test.steps[..|test.steps| - 1])
  {
    var steps := InjectSteps(req.faultType, config, targets).value;
    assert test.steps == steps + [WaitForFaultCompletion];
  }

  lemma {:induction false} TestsComeFromConfigs(
    req: SuiteRequest, dimension: TargetingSpec, size: AttackSize, configs: seq<FaultConfig>, test: SuiteTest)
    requires Chooses(req, dimension, size)
    requires TestsFor(req, dimension, size, TargetsOf(req, dimension, size), configs).Ok?
    requires test in TestsFor(req, dimension, size, TargetsOf(req, dimension, size), configs).value
    ensures test.config in configs && IsTestFor(req, dimension, size, test.config, test)
  {
    if ComposedTest(req, dimension, size, configs[0], TargetsOf(req, dimension, size)) != Ok(test) {
      TestsComeFromConfigs(req, dimension, size, configs[1..], test);
    }
  }

  lemma {:induction false} TestsComeFromSizes(
    req: SuiteRequest, dimension: TargetingSpec, sizes: seq<AttackSize>, tested: set<nat>, test: SuiteTest)
    requires DimensionTests(req, dimension, sizes, tested).Ok?
    requires test in DimensionTests(req, dimension, sizes, tested).value
    ensures test.size in sizes && test.config in req.configs
    ensures IsTestFor(req, dimension, test.size, test.config, test)
  {
    if test in SizeTests(req, dimension, sizes[0], tested).value {
      TestsComeFromConfigs(req, dimension, sizes[0], req.configs, test);
    } else {
      TestsComeFromSizes(req, dimension, sizes[1..], TestedAfter(req, dimension, sizes[0], tested), test);
    }
  }

  /** Nothing else is in the suite: every test is the one composed for a dimension, size and configuration asked for. */
  lemma {:induction false} TestsWereAskedFor(req: SuiteRequest, dimensions: seq<TargetingSpec>, test: SuiteTest)
    requires SuiteTests(req, dimensions).Ok? && test in SuiteTests(req, dimensions).value
    ensures test.dimension in dimensions && test.size in req.sizes && test.config in req.configs
    ensures IsTestFor(req, test.dimension, test.size, test.config, test)
  {
    if test in DimensionTests(req, dimensions[0], req.sizes, {}).value {
      TestsComeFromSizes(req, dimensions[0], req.sizes, {}, test);
    } else {
      TestsWereAskedFor(req, dimensions[1..], test);
    }
  }

  // ---------------------------------------------------------------- when a test is composed

  /** An i/o fault can be built for every id of the expression. */
  ghost predicate Mountable(e: ExpressionSelector) {
    SelectsIds(e) && forall id :: id in e.values ==> VolumePath(id).Ok?
  }

  /** The fault can be injected into the targets: only i/o faults demand anything of them. */
  ghost predicate Injectable(faultType: FaultType, targets: seq<TargetSelector>) {
    faultType.IOLatency? ==> forall t, e :: t in targets && e in t.selector ==> Mountable(e)
  }

  lemma {:induction false} IoStepsIff(config: FaultConfig, selector: ExpressionSelector, ids: seq<string>)
    ensures IoSteps(config, selector, ids).Ok? <==> forall id :: id in ids ==> VolumePath(id).Ok?
  {
    if ids != [] {
      IoStepsIff(config, selector, ids[1..]);
      assert ids == [ids[0]] + ids[1..];
    }
  }

  lemma {:induction false} ExpressionStepsIff(config: FaultConfig, selector: seq<ExpressionSelector>)
    ensures ExpressionSteps(config, selector).Ok? <==>
      forall e :: e in selector ==> forall id :: id in e.values ==> VolumePath(id).Ok?
  {
    if selector != [] {
      IoStepsIff(config, selector[0], selector[0].values);
      ExpressionStepsIff(config, selector[1..]);
      assert selector == [selector[0]] + selector[1..];
    }
  }

  lemma TargetStepsIff(faultType: FaultType, config: FaultConfig, target: TargetSelector)
    ensures TargetSteps(faultType, config, target).Ok? <==>
      !faultType.IOLatency? || forall e :: e in target.selector ==> Mountable(e)
  {
    ExpressionStepsIff(config, target.selector);
  }

  lemma {:induction false} InjectStepsIff(faultType: FaultType, config: FaultConfig, targets: seq<TargetSelector>)
    ensures InjectSteps(faultType, config, targets).Ok? <==> Injectable(faultType, targets)
  {
    if targets != [] {
      TargetStepsIff(faultType, config, targets[0]);
      InjectStepsIff(faultType, config, targets[1..]);
      assert targets == [targets[0]] + targets[1..];
    }
  }

  /** A test is composed exactly for a known fault type, well-formed settings and injectable targets. It waits
      last, carries the grace period of the settings, and hits what its injections into the targets hit. */
  lemma ComposedIff(
    req: SuiteRequest, dimension: TargetingSpec, size: AttackSize, config: FaultConfig, targets: seq<TargetSelector>)
    ensures var r := ComposedTest(req, dimension, size, config, targets);
      var grace := req.parse(req.faultType, config);
      && (r.Ok? <==> !req.faultType.UnknownFault? && grace.Some? && Injectable(req.faultType, targets))
      && (r == Err(NilTestPanic) <==> req.faultType.UnknownFault?)
      && (r == Err(BadFaultConfig) <==> !req.faultType.UnknownFault? && grace.None?)
      && (r.Ok? ==>
            && r.value.steps != [] && r.value.steps[|r.value.steps| - 1] == WaitForFaultCompletion
            && HitIds(r.value.steps) == AllHits(req.faultType, targets)
            && r.value.gracePeriod == grace.value
            && r.value.dimension == dimension && r.value.size == size && r.value.config == config)
  {
    InjectStepsIff(req.faultType, config, targets);
    var r := ComposedTest(req, dimension, size, config, targets);
    if r.Ok? {
      var steps := InjectSteps(req.faultType, config, targets).value;
      HitsOfTest(req.faultType, config, targets);
      HitsThenWait(steps);
    }
  }

  // ---------------------------------------------------------------- the steps of a test

  /** All faults but i/o ones take one step per target, with the target's whole selector. */
  lemma {:induction false} OneStepPerTarget(faultType: FaultType, config: FaultConfig, targets: seq<TargetSelector>)
    requires !faultType.IOLatency?
    ensures InjectSteps(faultType, config, targets).Ok?
    ensures var steps := InjectSteps(faultType, config, targets).value;
      && |steps| == |targets|
      && forall i :: 0 <= i < |steps| ==> steps[i] == InjectFault(config, targets[i].selector, "")
  {
    if targets != [] {
      OneStepPerTarget(faultType, config, targets[1..]);
    }
  }

  /** An i/o fault takes one step per pod, on the path of that pod's volume, but with the selector of all of them. */
  lemma {:induction false} OneStepPerPod(config: FaultConfig, selector: ExpressionSelector, ids: seq<string>)
    requires IoSteps(config, selector, ids).Ok?
    ensures var steps := IoSteps(config, selector, ids).value;
      && |steps| == |ids|
      && forall i :: 0 <= i < |steps| ==>
           VolumePath(ids[i]).Ok? && steps[i] == InjectFault(config, [selector], VolumePath(ids[i]).value)
  {
    if ids != [] {
      OneStepPerPod(config, selector, ids[1..]);
    }
  }

  // ---------------------------------------------------------------- when a suite is composed

  /** Every fault configuration can be injected into what the attack size selects. */
  ghost predicate AllCompose(req: SuiteRequest, dimension: TargetingSpec, size: AttackSize)
    requires Chooses(req, dimension, size)
  {
    forall c :: c in req.configs ==> ComposedTest(req, dimension, size, c, TargetsOf(req, dimension, size)).Ok?
  }

  /** The attack size is refused, or its tests can be composed. */
  ghost predicate Composable(req: SuiteRequest, dimension: TargetingSpec, size: AttackSize) {
    || req.SelectorsOf(dimension, size).CannotMeet?
    || (Chooses(req, dimension, size) && AllCompose(req, dimension, size))
  }

  lemma SameTargetsCompose(req: SuiteRequest, dimension: TargetingSpec, a: AttackSize, b: AttackSize)
    requires Chooses(req, dimension, a) && Chooses(req, dimension, b)
    requires |TargetsOf(req, dimension, a)| == |TargetsOf(req, dimension, b)|
    ensures AllCompose(req, dimension, a) <==> AllCompose(req, dimension, b)
  {
    SameCountSameTargets(req, dimension, a, b);
    forall c | c in req.configs
      ensures ComposedTest(req, dimension, a, c, TargetsOf(req, dimension, a)).Ok?
        <==> ComposedTest(req, dimension, b, c, TargetsOf(req, dimension, b)).Ok?
    {
      ComposedIff(req, dimension, a, c, TargetsOf(req, dimension, a));
      ComposedIff(req, dimension, b, c, TargetsOf(req, dimension, b));
    }
  }

  lemma {:induction false} TestsForIff(
    req: SuiteRequest, dimension: TargetingSpec, size: AttackSize, targets: seq<TargetSelector>,
    configs: seq<FaultConfig>)
    ensures TestsFor(req, dimension, size, targets, configs).Ok?
      <==> forall c :: c in configs ==> ComposedTest(req, dimension, size, c, targets).Ok?
  {
    if configs != [] {
      TestsForIff(req, dimension, size, targets, configs[1..]);
      assert configs == [configs[0]] + configs[1..];
    }
  }

  /** The sizes whose target count has been met before have composed. */
  ghost predicate MetCompose(req: SuiteRequest, dimension: TargetingSpec, tested: set<nat>) {
    forall s: AttackSize :: Chooses(req, dimension, s) && |TargetsOf(req, dimension, s)| in tested ==>
      AllCompose(req, dimension, s)
  }

  lemma SizeTestsIff(req: SuiteRequest, dimension: TargetingSpec, size: AttackSize, tested: set<nat>)
    requires MetCompose(req, dimension, tested)
    ensures SizeTests(req, dimension, size, tested).Ok? <==> Composable(req, dimension, size)
    ensures Composable(req, dimension, size) ==> MetCompose(req, dimension, TestedAfter(req, dimension, size, tested))
  {
    if Chooses(req, dimension, size) {
      TestsForIff(req, dimension, size, TargetsOf(req, dimension, size), req.configs);
      if AllCompose(req, dimension, size) {
        forall s: AttackSize |
          Chooses(req, dimension, s) && |TargetsOf(req, dimension, s)| == |TargetsOf(req, dimension, size)|
          ensures AllCompose(req, dimension, s)
        {
          SameTargetsCompose(req, dimension, size, s);
        }
      }
    }
  }

  lemma {:induction false} DimensionTestsIff(
    req: SuiteRequest, dimension: TargetingSpec, sizes: seq<AttackSize>, tested: set<nat>)
    requires MetCompose(req, dimension, tested)
    ensures DimensionTests(req, dimension, sizes, tested).Ok?
      <==> forall s :: s in sizes ==> Composable(req, dimension, s)
    decreases |sizes|
  {
    if sizes != [] {
      SizeTestsIff(req, dimension, sizes[0], tested);
      assert sizes == [sizes[0]] + sizes[1..];
      if Composable(req, dimension, sizes[0]) {
        DimensionTestsIff(req, dimension, sizes[1..], TestedAfter(req, dimension, sizes[0], tested));
      }
    }
  }

  /** A suite is composed exactly if every dimension is supported and every attack size is refused in it or has tests
      that can be composed: dropping duplicates neither saves nor fails a suite. */
  lemma {:induction false} SuiteSucceedsIff(req: SuiteRequest, dimensions: seq<TargetingSpec>)
    ensures SuiteTests(req, dimensions).Ok? <==>
      forall d :: d in dimensions ==>
        !d.UnsupportedSpec? && forall s :: s in req.sizes ==> Composable(req, d, s)
    decreases |dimensions|
  {
    if dimensions != [] {
      SuiteSucceedsIff(req, dimensions[1..]);
      DimensionTestsIff(req, dimensions[0], req.sizes, {});
      assert dimensions == [dimensions[0]] + dimensions[1..];
    }
  }

  /** The failure is that of this attack size in this dimension. */
  ghost predicate FailsWith(req: SuiteRequest, dimension: TargetingSpec, size: AttackSize, e: Failure) {
    || (req.SelectorsOf(dimension, size) == NoMatch && e == NoMatchingNode)
    || (req.SelectorsOf(dimension, size) == Choice.IndexPanic && e == TargetIndexPanic)
    || (Chooses(req, dimension, size) && exists c ::
          c in req.configs && ComposedTest(req, dimension, size, c, TargetsOf(req, dimension, size)) == Err(e))
  }

  lemma {:induction false} TestsForFails(
    req: SuiteRequest, dimension: TargetingSpec, size: AttackSize, targets: seq<TargetSelector>,
    configs: seq<FaultConfig>)
    returns (c: FaultConfig)
    requires TestsFor(req, dimension, size, targets, configs).Err?
    ensures c in configs
    ensures ComposedTest(req, dimension, size, c, targets)
      == Err(TestsFor(req, dimension, size, targets, configs).error)
  {
    if ComposedTest(req, dimension, size, configs[0], targets).Err? {
      c := configs[0];
    } else {
      c := TestsForFails(req, dimension, size, targets, configs[1..]);
    }
  }

  lemma {:induction false} DimensionFails(
    req: SuiteRequest, dimension: TargetingSpec, sizes: seq<AttackSize>, tested: set<nat>)
    returns (size: AttackSize)
    requires DimensionTests(req, dimension, sizes, tested).Err?
    ensures size in sizes && FailsWith(req, dimension, size, DimensionTests(req, dimension, sizes, tested).error)
    decreases |sizes|
  {
    if SizeTests(req, dimension, sizes[0], tested).Err? {
      size := sizes[0];
      if Chooses(req, dimension, size) {
        var c := TestsForFails(req, dimension, size, TargetsOf(req, dimension, size), req.configs);
      }
    } else {
      size := DimensionFails(req, dimension, sizes[1..], TestedAfter(req, dimension, sizes[0], tested));
    }
  }

  /** Why no suite is composed: the error is that of an unsupported dimension, or of an attack size in a dimension. */
  lemma {:induction false} SuiteFailsWith(req: SuiteRequest, dimensions: seq<TargetingSpec>)
    returns (dimension: TargetingSpec, size: Option<AttackSize>)
    requires SuiteTests(req, dimensions).Err?
    ensures dimension in dimensions
    ensures match size
      case None => dimension.UnsupportedSpec? && SuiteTests(req, dimensions).error == UnsupportedDimension
      case Some(s) => s in req.sizes && FailsWith(req, dimension, s, SuiteTests(req, dimensions).error)
    decreases |dimensions|
  {
    if dimensions[0].UnsupportedSpec? {
      dimension, size := dimensions[0], None;
    } else if DimensionTests(req, dimensions[0], req.sizes, {}).Err? {
      var s := DimensionFails(req, dimensions[0], req.sizes, {});
      dimension, size := dimensions[0], Some(s);
    } else {
      dimension, size := SuiteFailsWith(req, dimensions[1..]);
    }
  }

  // ---------------------------------------------------------------- how many

  /** The distinct numbers of targets that the attack sizes come to. */
  ghost function TargetCounts(req: SuiteRequest, dimension: TargetingSpec, sizes: seq<AttackSize>): set<nat> {
    if sizes == [] then {}
    else
      TargetCounts(req, dimension, sizes[1..])
      + if Chooses(req, dimension, sizes[0]) then {|TargetsOf(req, dimension, sizes[0])|} else {}
  }

  lemma {:induction false} OneTestPerConfig(
    req: SuiteRequest, dimension: TargetingSpec, size: AttackSize, targets: seq<TargetSelector>,
    configs: seq<FaultConfig>)
    requires TestsFor(req, dimension, size, targets, configs).Ok?
    ensures |TestsFor(req, dimension, size, targets, configs).value| == |configs|
  {
    if configs != [] {
      OneTestPerConfig(req, dimension, size, targets, configs[1..]);
    }
  }

  /** An attack size adds its target count to those still to be met, unless that was met before. */
  lemma CountsStep(req: SuiteRequest, dimension: TargetingSpec, sizes: seq<AttackSize>, tested: set<nat>)
    requires sizes != []
    ensures |TargetCounts(req, dimension, sizes) - tested|
      == |TargetCounts(req, dimension, sizes[1..]) - TestedAfter(req, dimension, sizes[0], tested)|
        + if Chooses(req, dimension, sizes[0]) && |TargetsOf(req, dimension, sizes[0])| !in tested then 1 else 0
  {
    var others := TargetCounts(req, dimension, sizes[1..]);
    if Chooses(req, dimension, sizes[0]) {
      var k := |TargetsOf(req, dimension, sizes[0])|;
      assert TargetCounts(req, dimension, sizes) == others + {k};
      assert TestedAfter(req, dimension, sizes[0], tested) == tested + {k};
      AddCount(others, tested, k);
    } else {
      assert TargetCounts(req, dimension, sizes) == others + {} == others;
    }
  }

  lemma AddCount(others: set<nat>, tested: set<nat>, k: nat)
    ensures |others + {k} - tested| == |others - (tested + {k})| + if k in tested then 0 else 1
  {
    if k in tested {
      assert others + {k} - tested == others - (tested + {k});
    } else {
      assert others + {k} - tested == (others - (tested + {k})) + {k};
    }
  }

  lemma MulSucc(a: nat, b: nat)
    ensures (a + 1) * b == a * b + b
  {
  }

  lemma {:induction false} DimensionSize(
    req: SuiteRequest, dimension: TargetingSpec, sizes: seq<AttackSize>, tested: set<nat>)
    requires DimensionTests(req, dimension, sizes, tested).Ok?
    ensures |DimensionTests(req, dimension, sizes, tested).value|
      == |TargetCounts(req, dimension, sizes) - tested| * |req.configs|
  {
    if sizes != [] {
      var rest, after := sizes[1..], TestedAfter(req, dimension, sizes[0], tested);
      DimensionSplits(req, dimension, sizes, tested, after);
      DimensionSize(req, dimension, rest, after);
      SizeTestsCount(req, dimension, sizes[0], tested);
      CountsStep(req, dimension, sizes, tested);
      MulSucc(|TargetCounts(req, dimension, rest) - after|, |req.configs|);
    }
  }

  lemma DimensionSplits(
    req: SuiteRequest, dimension: TargetingSpec, sizes: seq<AttackSize>, tested: set<nat>, after: set<nat>)
    requires sizes != [] && DimensionTests(req, dimension, sizes, tested).Ok?
    requires after == TestedAfter(req, dimension, sizes[0], tested)
    ensures SizeTests(req, dimension, sizes[0], tested).Ok? && DimensionTests(req, dimension, sizes[1..], after).Ok?
    ensures |DimensionTests(req, dimension, sizes, tested).value|
      == |SizeTests(req, dimension, sizes[0], tested).value| + |DimensionTests(req, dimension, sizes[1..], after).value|
  {
  }

  lemma SizeTestsCount(req: SuiteRequest, dimension: TargetingSpec, size: AttackSize, tested: set<nat>)
    requires SizeTests(req, dimension, size, tested).Ok?
    ensures |SizeTests(req, dimension, size, tested).value|
      == if Chooses(req, dimension, size) && |TargetsOf(req, dimension, size)| !in tested then |req.configs| else 0
  {
    if Chooses(req, dimension, size) && |TargetsOf(req, dimension, size)| !in tested {
      OneTestPerConfig(req, dimension, size, TargetsOf(req, dimension, size), req.configs);
    }
  }

  /** The target counts are the same in every dimension. */
  lemma {:induction false} CountsAgree(req: SuiteRequest, d: TargetingSpec, d': TargetingSpec, sizes: seq<AttackSize>)
    ensures TargetCounts(req, d, sizes) == TargetCounts(req, d', sizes)
  {
    if sizes != [] {
      CountsAgree(req, d, d', sizes[1..]);
      SameLength(req, d, d', sizes[0]);
    }
  }

  lemma SameLength(req: SuiteRequest, d: TargetingSpec, d': TargetingSpec, size: AttackSize)
    ensures Chooses(req, d, size) <==> Chooses(req, d', size)
    ensures Chooses(req, d, size) ==> |TargetsOf(req, d, size)| == |TargetsOf(req, d', size)|
  {
  }

  /** The suite has one test per dimension, distinct number of targets, and fault configuration. */
  lemma {:induction false} SuiteSize(req: SuiteRequest, dimensions: seq<TargetingSpec>)
    requires SuiteTests(req, dimensions).Ok?
    ensures |SuiteTests(req, dimensions).value|
      == |dimensions| * (|TargetCounts(req, MatchingClient, req.sizes)| * |req.configs|)
  {
    if dimensions != [] {
      SuiteSize(req, dimensions[1..]);
      OneDimension(req, dimensions[0]);
      MulSucc(|dimensions| - 1, |TargetCounts(req, MatchingClient, req.sizes)| * |req.configs|);
    }
  }

  lemma OneDimension(req: SuiteRequest, dimension: TargetingSpec)
    requires DimensionTests(req, dimension, req.sizes, {}).Ok?
    ensures |DimensionTests(req, dimension, req.sizes, {}).value|
      == |TargetCounts(req, MatchingClient, req.sizes)| * |req.configs|
  {
    DimensionSize(req, dimension, req.sizes, {});
    CountsAgree(req, dimension, MatchingClient, req.sizes);
    assert TargetCounts(req, dimension, req.sizes) - {} == TargetCounts(req, dimension, req.sizes);
  }

  // ---------------------------------------------------------------- what a test hits

  /** The pod ids that the inject steps of a test select, step by step. */
  function HitIds(steps: seq<PlanStep>): seq<string> {
    if steps == [] then [] else StepHits(steps[0]) + HitIds(steps[1..])
  }

  function StepHits(step: PlanStep): seq<string> {
    match step
    case InjectFault(_, selectors, _) => IdsIn(selectors)
    case WaitForFaultCompletion => []
  }

  lemma {:induction false} HitsConcat(a: seq<PlanStep>, b: seq<PlanStep>)
    ensures HitIds(a + b) == HitIds(a) + HitIds(b)
  {
    if a == [] {
      assert a + b == b && HitIds(b) == [] + HitIds(b);
    } else {
      var head, rest := a[0], a[1..];
      HitsConcat(rest, b);
      HitsCons(head, rest);
      HitsCons(head, rest + b);
      assert a == [head] + rest && a + b == [head] + (rest + b);
      ConcatAssociative(StepHits(head), HitIds(rest), HitIds(b));
    }
  }

  lemma HitsCons(step: PlanStep, rest: seq<PlanStep>)
    ensures HitIds([step] + rest) == StepHits(step) + HitIds(rest)
  {
    assert ([step] + rest)[1..] == rest;
  }

  lemma HitsOfOne(step: PlanStep)
    ensures HitIds([step]) == StepHits(step)
  {
    assert [step] == [step] + [];
    HitsCons(step, []);
  }

  lemma ConcatAssociative<T>(a: seq<T>, b: seq<T>, c: seq<T>)
    ensures (a + b) + c == a + (b + c)
  {
  }

  /** The wait at the end hits nothing. */
  lemma HitsThenWait(steps: seq<PlanStep>)
    ensures HitIds(steps + [WaitForFaultCompletion]) == HitIds(steps)
  {
    HitsConcat(steps, [WaitForFaultCompletion]);
    HitsOfOne(WaitForFaultCompletion);
    assert HitIds(steps) + [] == HitIds(steps);
  }

  /** A string sequence n times in a row. */
  function Repeat(ids: seq<string>, n: nat): seq<string> {
    if n == 0 then [] else ids + Repeat(ids, n - 1)
  }

  lemma IdsOfSingle(selector: seq<ExpressionSelector>)
    requires |selector| == 1
    ensures IdsIn(selector) == selector[0].values
    ensures RepeatedIds(selector) == Repeat(selector[0].values, |selector[0].values|)
  {
    var rest := selector[1..];
    assert rest == [] && IdsIn(rest) == [] && RepeatedIds(rest) == [];
  }

  /** An i/o fault has one step per id, and each step selects all ids of its target. */
  lemma {:induction false} IoHits(config: FaultConfig, selector: ExpressionSelector, ids: seq<string>)
    requires IoSteps(config, selector, ids).Ok?
    ensures HitIds(IoSteps(config, selector, ids).value) == Repeat(selector.values, |ids|)
  {
    if ids != [] {
      IoHits(config, selector, ids[1..]);
      var path := VolumePath(ids[0]).value;
      var step := InjectFault(config, [selector], path);
      HitsConcat([step], IoSteps(config, selector, ids[1..]).value);
      IdsOfSingle([selector]);
      HitsOfOne(step);
    }
  }

  /** What the i/o faults for some expressions hit. */
  ghost function RepeatedIds(selector: seq<ExpressionSelector>): seq<string> {
    if selector == [] then []
    else Repeat(selector[0].values, |selector[0].values|) + RepeatedIds(selector[1..])
  }

  lemma {:induction false} ExpressionHits(config: FaultConfig, selector: seq<ExpressionSelector>)
    requires ExpressionSteps(config, selector).Ok?
    ensures HitIds(ExpressionSteps(config, selector).value) == RepeatedIds(selector)
  {
    if selector != [] {
      ExpressionHits(config, selector[1..]);
      IoHits(config, selector[0], selector[0].values);
      HitsConcat(
        IoSteps(config, selector[0], selector[0].values).value, ExpressionSteps(config, selector[1..]).value);
    }
  }

  /** What the injections into one target hit. */
  ghost function TargetHits(faultType: FaultType, target: TargetSelector): seq<string> {
    if faultType.IOLatency? then RepeatedIds(target.selector) else IdsIn(target.selector)
  }

  ghost function AllHits(faultType: FaultType, targets: seq<TargetSelector>): seq<string> {
    if targets == [] then [] else TargetHits(faultType, targets[0]) + AllHits(faultType, targets[1..])
  }

  lemma {:induction false} HitsOfTest(faultType: FaultType, config: FaultConfig, targets: seq<TargetSelector>)
    requires InjectSteps(faultType, config, targets).Ok?
    ensures HitIds(InjectSteps(faultType, config, targets).value) == AllHits(faultType, targets)
  {
    if targets != [] {
      HitsOfTest(faultType, config, targets[1..]);
      HitsOfTarget(faultType, config, targets[0]);
      HitsConcat(TargetSteps(faultType, config, targets[0]).value, InjectSteps(faultType, config, targets[1..]).value);
    }
  }

  lemma HitsOfTarget(faultType: FaultType, config: FaultConfig, target: TargetSelector)
    requires TargetSteps(faultType, config, target).Ok?
    ensures HitIds(TargetSteps(faultType, config, target).value) == TargetHits(faultType, target)
  {
    if faultType.IOLatency? {
      ExpressionHits(config, target.selector);
    } else {
      HitsOfOne(InjectFault(config, target.selector, ""));
    }
  }

  /** Each target is a single id. */
  ghost predicate OneIdEach(targets: seq<TargetSelector>) {
    forall t :: t in targets ==> |t.selector| == 1 && |t.selector[0].values| == 1
  }

  lemma {:induction false} HitsAreIds(faultType: FaultType, targets: seq<TargetSelector>)
    requires faultType.IOLatency? ==> OneIdEach(targets)
    ensures AllHits(faultType, targets) == AllIds(targets)
  {
    if targets != [] {
      HitsAreIds(faultType, targets[1..]);
      if faultType.IOLatency? {
        assert targets[0] in targets;
        OneIdHit(targets[0].selector);
      }
    }
  }

  lemma OneIdHit(selector: seq<ExpressionSelector>)
    requires |selector| == 1 && |selector[0].values| == 1
    ensures RepeatedIds(selector) == IdsIn(selector)
  {
    var ids := selector[0].values;
    IdsOfSingle(selector);
    assert Repeat(ids, 1) == ids + Repeat(ids, 0) == ids;
  }

  /** A target with two ids is hit more than once by an i/o fault. */
  lemma {:induction false} RepeatedTarget(targets: seq<TargetSelector>, i: nat)
    requires i < |targets| && targets[i].selector != [] && |targets[i].selector[0].values| >= 2
    ensures !NoDuplicates(AllHits(IOLatency, targets))
  {
    var head, rest := TargetHits(IOLatency, targets[0]), AllHits(IOLatency, targets[1..]);
    if i == 0 {
      var ids := targets[0].selector[0].values;
      var n := |ids|;
      assert Repeat(ids, n) == ids + Repeat(ids, n - 1);
      assert Repeat(ids, n - 1) == ids + Repeat(ids, n - 2);
      assert head == Repeat(ids, n) + RepeatedIds(targets[0].selector[1..]);
      assert head[0] == ids[0] && head[n] == ids[0];
      assert (head + rest)[0] == (head + rest)[n];
    } else {
      RepeatedTarget(targets[1..], i - 1);
      var a, b :| 0 <= a < b < |rest| && rest[a] == rest[b];
      assert (head + rest)[|head| + a] == (head + rest)[|head| + b];
    }
  }

  /** No pod is hit twice by one test of targets with distinct node numbers, except that an i/o fault hits every
      id of a target as often as the target has ids: there it holds exactly when each target is a single id. */
  lemma NoPodHitTwiceIff(faultType: FaultType, wholeNode: bool, isExec: bool, count: nat, nodes: seq<Node>)
    requires DistinctIndices(nodes)
    ensures NoDuplicates(AllHits(faultType, Selectors(wholeNode, isExec, count, nodes))) <==>
      !faultType.IOLatency? || forall n :: n in nodes ==> !wholeNode && (isExec || !n.consensus.hasValidatorSidecar)
  {
    var targets := Selectors(wholeNode, isExec, count, nodes);
    OneIdIff(wholeNode, isExec, count, nodes);
    if !faultType.IOLatency? || OneIdEach(targets) {
      HitsAreIds(faultType, targets);
      NoIdTwice(wholeNode, isExec, count, nodes);
    } else {
      var t :| t in targets && !(|t.selector| == 1 && |t.selector[0].values| == 1);
      var i :| 0 <= i < |targets| && targets[i] == t;
      RepeatedTarget(targets, i);
    }
  }

  lemma OneIdIff(wholeNode: bool, isExec: bool, count: nat, nodes: seq<Node>)
    ensures OneIdEach(Selectors(wholeNode, isExec, count, nodes)) <==>
      forall n :: n in nodes ==> !wholeNode && (isExec || !n.consensus.hasValidatorSidecar)
    ensures forall t :: t in Selectors(wholeNode, isExec, count, nodes) ==>
      |t.selector| == 1 && |t.selector[0].values| >= 1
  {
    var targets := Selectors(wholeNode, isExec, count, nodes);
    forall i | 0 <= i < |nodes|
      ensures targets[i].selector[0].values == TargetIds(wholeNode, isExec, count, nodes[i])
      ensures |targets[i].selector[0].values| == 1 <==>
        !wholeNode && (isExec || !nodes[i].consensus.hasValidatorSidecar)
      ensures |targets[i].selector[0].values| >= 1
      ensures targets[i] in targets && nodes[i] in nodes
    {
    }
  }
}
