/** ComposeTestSuite of pkg/plan/suite/suite_builder.go, with the step composers of step_builder.go. */
module Suite {
  import opened Common
  import opened Strings
  import opened NetworkBuilder
  import opened Targeting

  datatype FaultType =
    | ClockSkew | RestartContainers | IOLatency | NetworkLatency | PacketLoss
    | UnknownFault(name: string)

  type FaultConfig = map<string, string>

  /** One step of a test. The fault's own settings stay in the configuration it was built from. */
  datatype PlanStep =
    | InjectFault(config: FaultConfig, selectors: seq<ExpressionSelector>, volumePath: string)
    | WaitForFaultCompletion

  datatype SuiteTest = SuiteTest(
    dimension: TargetingSpec, size: AttackSize, config: FaultConfig, steps: seq<PlanStep>, gracePeriod: int)

  /** Why no suite is returned. The last three are run-time panics: an index past the targetable nodes, a pod
      id of less than three parts, and the nil test of an unknown fault type. */
  datatype Failure =
    | UnsupportedDimension | NoMatchingNode | BadFaultConfig | NotAnIdSelector | ValidatorPod
    | TargetIndexPanic | PodIdIndexPanic | NilTestPanic

  /** `parse` stands for reading the fields a fault type requires: the grace period if all of them are present
      and well formed. */
  datatype SuiteRequest = SuiteRequest(
    faultType: FaultType, client: string, isExec: bool, nodes: seq<Node>,
    configs: seq<FaultConfig>, dimensions: seq<TargetingSpec>, sizes: seq<AttackSize>,
    parse: (FaultType, FaultConfig) -> Option<int>)
  {
    function SelectorsOf(dimension: TargetingSpec, size: AttackSize): Choice<seq<TargetSelector>> {
      SelectorsFor(isExec, client, size, dimension.MatchingNode?, |nodes| + 1, nodes)
    }
  }

  // ---------------------------------------------------------------- steps

  /** getVolumePathForIOFault. */
  function VolumePath(pod: string): Result<string, Failure> {
    var parts := Split(pod, '-');
    if parts[|parts| - 1] == "validator" then Err(ValidatorPod)
    else if |parts| < 3 then Err(PodIdIndexPanic)
    else Ok("/data/" + parts[2] + "/" + (if parts[0] == "el" then "execution" else "consensus") + "-data")
  }

  /** buildIOLatencyFault: one step per id, each carrying the whole selector. */
  function IoSteps(config: FaultConfig, selector: ExpressionSelector, ids: seq<string>)
    : (r: Result<seq<PlanStep>, Failure>)
    ensures r.Err? ==> r.error == ValidatorPod || r.error == PodIdIndexPanic
  {
    if ids == [] then Ok([])
    else
      match VolumePath(ids[0])
      case Err(e) => Err(e)
      case Ok(path) => Prepend([InjectFault(config, [selector], path)], IoSteps(config, selector, ids[1..]))
  }

  /** What an i/o fault demands of each expression of a selector. */
  predicate SelectsIds(e: ExpressionSelector) {
    e.key == POD_ID && e.operator == "In"
  }

  /** The i/o steps of all expressions of a selector. */
  function ExpressionSteps(config: FaultConfig, selector: seq<ExpressionSelector>)
    : (r: Result<seq<PlanStep>, Failure>)
    ensures r.Err? ==> r.error == ValidatorPod || r.error == PodIdIndexPanic
  {
    if selector == [] then Ok([])
    else
      match IoSteps(config, selector[0], selector[0].values)
      case Err(e) => Err(e)
      case Ok(steps) => Prepend(steps, ExpressionSteps(config, selector[1..]))
  }

  /** The steps that inject into one target. */
  function TargetSteps(faultType: FaultType, config: FaultConfig, target: TargetSelector)
    : Result<seq<PlanStep>, Failure>
  {
    if !faultType.IOLatency? then Ok([InjectFault(config, target.selector, "")])
    else if exists e :: e in target.selector && !SelectsIds(e) then Err(NotAnIdSelector)
    else ExpressionSteps(config, target.selector)
  }

  function InjectSteps(faultType: FaultType, config: FaultConfig, targets: seq<TargetSelector>)
    : (r: Result<seq<PlanStep>, Failure>)
    ensures r.Err? ==> faultType.IOLatency? && r.error in {NotAnIdSelector, ValidatorPod, PodIdIndexPanic}
  {
    if targets == [] then Ok([])
    else
      match TargetSteps(faultType, config, targets[0])
      case Err(e) => Err(e)
      case Ok(steps) => Prepend(steps, InjectSteps(faultType, config, targets[1..]))
  }

  method BuildIOLatencyFault(config: FaultConfig, selector: ExpressionSelector)
    returns (r: Result<seq<PlanStep>, Failure>)
    ensures r == IoSteps(config, selector, selector.values)
  {
    var steps: seq<PlanStep> := [];
    PrependEmpty([], IoSteps(config, selector, selector.values));
    assert selector.values[0..] == selector.values;
    for i := 0 to |selector.values|
      invariant IoSteps(config, selector, selector.values) ==
        Prepend(steps, IoSteps(config, selector, selector.values[i..]))
    {
      var path := VolumePath(selector.values[i]);
      if path.Err? {
        return Err(path.error);
      }
      var step := InjectFault(config, [selector], path.value);
      assert selector.values[i..][1..] == selector.values[i + 1..];
      PrependTwice(steps, [step], IoSteps(config, selector, selector.values[i + 1..]));
      steps := steps + [step];
    }
    PrependEmpty<PlanStep, Failure>(steps, Ok([]));
    return Ok(steps);
  }

  /** areExprSelectorsMatchingIdIn. */
  method AreExprSelectorsMatchingIdIn(selector: seq<ExpressionSelector>) returns (matching: bool)
    ensures matching <==> forall e :: e in selector ==> SelectsIds(e)
  {
    for i := 0 to |selector|
      invariant forall j :: 0 <= j < i ==> SelectsIds(selector[j])
    {
      if selector[i].key != POD_ID || selector[i].operator != "In" {
        assert selector[i] in selector;
        return false;
      }
    }
    return true;
  }

  /** The loop of composeIOLatencySteps over the expressions of one target. */
  method ComposeIOLatencySteps(config: FaultConfig, selector: seq<ExpressionSelector>)
    returns (r: Result<seq<PlanStep>, Failure>)
    ensures r == ExpressionSteps(config, selector)
  {
    var steps: seq<PlanStep> := [];
    PrependEmpty([], ExpressionSteps(config, selector));
    assert selector[0..] == selector;
    for i := 0 to |selector|
      invariant ExpressionSteps(config, selector) == Prepend(steps, ExpressionSteps(config, selector[i..]))
    {
      var more := BuildIOLatencyFault(config, selector[i]);
      if more.Err? {
        return more;
      }
      assert selector[i..][1..] == selector[i + 1..];
      PrependTwice(steps, more.value, ExpressionSteps(config, selector[i + 1..]));
      steps := steps + more.value;
    }
    PrependEmpty<PlanStep, Failure>(steps, Ok([]));
    return Ok(steps);
  }

  /** The body of the loops over targets. */
  method ComposeTargetSteps(faultType: FaultType, config: FaultConfig, target: TargetSelector)
    returns (r: Result<seq<PlanStep>, Failure>)
    ensures r == TargetSteps(faultType, config, target)
  {
    if !faultType.IOLatency? {
      return Ok([InjectFault(config, target.selector, "")]);
    }
    var matching := AreExprSelectorsMatchingIdIn(target.selector);
    if !matching {
      return Err(NotAnIdSelector);
    }
    r := ComposeIOLatencySteps(config, target.selector);
  }

  /** The five compose*Steps functions. */
  method ComposeInjectSteps(faultType: FaultType, config: FaultConfig, targets: seq<TargetSelector>)
    returns (r: Result<seq<PlanStep>, Failure>)
    ensures r == InjectSteps(faultType, config, targets)
  {
    var steps: seq<PlanStep> := [];
    PrependEmpty([], InjectSteps(faultType, config, targets));
    assert targets[0..] == targets;
    for i := 0 to |targets|
      invariant InjectSteps(faultType, config, targets) ==
        Prepend(steps, InjectSteps(faultType, config, targets[i..]))
    {
      var more := ComposeTargetSteps(faultType, config, targets[i]);
      if more.Err? {
        return more;
      }
      assert targets[i..][1..] == targets[i + 1..];
      PrependTwice(steps, more.value, InjectSteps(faultType, config, targets[i + 1..]));
      steps := steps + more.value;
    }
    PrependEmpty<PlanStep, Failure>(steps, Ok([]));
    return Ok(steps);
  }

  // ---------------------------------------------------------------- tests

  /** composeTestForFaultType: the inject steps, then the wait for all faults to end. */
  function ComposedTest(
    req: SuiteRequest, dimension: TargetingSpec, size: AttackSize, config: FaultConfig, targets: seq<TargetSelector>)
    : Result<SuiteTest, Failure>
  {
    if req.faultType.UnknownFault? then Err(NilTestPanic)
    else
      match req.parse(req.faultType, config)
      case None => Err(BadFaultConfig)
      case Some(grace) =>
        match InjectSteps(req.faultType, config, targets)
        case Err(e) => Err(e)
        case Ok(steps) => Ok(SuiteTest(dimension, size, config, steps + [WaitForFaultCompletion], grace))
  }

  method ComposeTestForFaultType(
    req: SuiteRequest, dimension: TargetingSpec, size: AttackSize, config: FaultConfig, targets: seq<TargetSelector>)
    returns (r: Result<SuiteTest, Failure>)
    ensures r == ComposedTest(req, dimension, size, config, targets)
  {
    if req.faultType.UnknownFault? {
      return Err(NilTestPanic);
    }
    var grace := req.parse(req.faultType, config);
    if grace.None? {
      return Err(BadFaultConfig);
    }
    var steps := ComposeInjectSteps(req.faultType, config, targets);
    if steps.Err? {
      return Err(steps.error);
    }
    return Ok(SuiteTest(dimension, size, config, steps.value + [WaitForFaultCompletion], grace.value));
  }

  /** The tests of one attack size: one per fault configuration. */
  function TestsFor(
    req: SuiteRequest, dimension: TargetingSpec, size: AttackSize, targets: seq<TargetSelector>,
    configs: seq<FaultConfig>)
    : Result<seq<SuiteTest>, Failure>
  {
    if configs == [] then Ok([])
    else
      match ComposedTest(req, dimension, size, configs[0], targets)
      case Err(e) => Err(e)
      case Ok(test) => Prepend([test], TestsFor(req, dimension, size, targets, configs[1..]))
  }

  /** What a choice of targets adds to its dimension when the target counts `tested` have been met already:
      nothing if the size is refused or its count is among them. */
  function ChoiceTests(
    req: SuiteRequest, dimension: TargetingSpec, size: AttackSize, choice: Choice<seq<TargetSelector>>,
    tested: set<nat>)
    : Result<seq<SuiteTest>, Failure>
  {
    match choice
    case NoMatch => Err(NoMatchingNode)
    case IndexPanic => Err(TargetIndexPanic)
    case CannotMeet(_, _) => Ok([])
    case Chosen(targets) =>
      if |targets| in tested then Ok([]) else TestsFor(req, dimension, size, targets, req.configs)
  }

  /** The target counts that have been met after a choice. */
  function MetAfter(choice: Choice<seq<TargetSelector>>, tested: set<nat>): set<nat> {
    if choice.Chosen? then tested + {|choice.value|} else tested
  }

  function SizeTests(req: SuiteRequest, dimension: TargetingSpec, size: AttackSize, tested: set<nat>)
    : Result<seq<SuiteTest>, Failure>
  {
    ChoiceTests(req, dimension, size, req.SelectorsOf(dimension, size), tested)
  }

  function TestedAfter(req: SuiteRequest, dimension: TargetingSpec, size: AttackSize, tested: set<nat>): set<nat> {
    MetAfter(req.SelectorsOf(dimension, size), tested)
  }

  function DimensionTests(req: SuiteRequest, dimension: TargetingSpec, sizes: seq<AttackSize>, tested: set<nat>)
    : Result<seq<SuiteTest>, Failure>
  {
    if sizes == [] then Ok([])
    else
      match SizeTests(req, dimension, sizes[0], tested)
      case Err(e) => Err(e)
      case Ok(tests) =>
        Prepend(tests, DimensionTests(req, dimension, sizes[1..], TestedAfter(req, dimension, sizes[0], tested)))
  }

  function SuiteTests(req: SuiteRequest, dimensions: seq<TargetingSpec>): Result<seq<SuiteTest>, Failure> {
    if dimensions == [] then Ok([])
    else if dimensions[0].UnsupportedSpec? then Err(UnsupportedDimension)
    else
      match DimensionTests(req, dimensions[0], req.sizes, {})
      case Err(e) => Err(e)
      case Ok(tests) => Prepend(tests, SuiteTests(req, dimensions[1..]))
  }

  // ---------------------------------------------------------------- the code

  method ComposeTestsFor(req: SuiteRequest, dimension: TargetingSpec, size: AttackSize, targets: seq<TargetSelector>)
    returns (r: Result<seq<SuiteTest>, Failure>)
    ensures r == TestsFor(req, dimension, size, targets, req.configs)
  {
    var tests: seq<SuiteTest> := [];
    PrependEmpty([], TestsFor(req, dimension, size, targets, req.configs));
    assert req.configs[0..] == req.configs;
    for i := 0 to |req.configs|
      invariant TestsFor(req, dimension, size, targets, req.configs) ==
        Prepend(tests, TestsFor(req, dimension, size, targets, req.configs[i..]))
    {
      var test := ComposeTestForFaultType(req, dimension, size, req.configs[i], targets);
      if test.Err? {
        return Err(test.error);
      }
      assert req.configs[i..][1..] == req.configs[i + 1..];
      PrependTwice(tests, [test.value], TestsFor(req, dimension, size, targets, req.configs[i + 1..]));
      tests := tests + [test.value];
    }
    PrependEmpty<SuiteTest, Failure>(tests, Ok([]));
    return Ok(tests);
  }

  /** The body of the loop over attack sizes, once the targets have been chosen. */
  method ComposeChoice(
    req: SuiteRequest, dimension: TargetingSpec, size: AttackSize, choice: Choice<seq<TargetSelector>>,
    tested: set<nat>)
    returns (r: Result<seq<SuiteTest>, Failure>, after: set<nat>)
    ensures r == ChoiceTests(req, dimension, size, choice, tested)
    ensures after == MetAfter(choice, tested)
  {
    after := tested;
    match choice
    case CannotMeet(_, _) => r := Ok([]);
    case NoMatch => r := Err(NoMatchingNode);
    case IndexPanic => r := Err(TargetIndexPanic);
    case Chosen(targets) =>
      if |targets| in tested {
        assert tested + {|targets|} == tested;
        r := Ok([]);
      } else {
        after := tested + {|targets|};
        r := ComposeTestsFor(req, dimension, size, targets);
      }
  }

  method ComposeDimension(req: SuiteRequest, dimension: TargetingSpec) returns (r: Result<seq<SuiteTest>, Failure>)
    ensures r == DimensionTests(req, dimension, req.sizes, {})
  {
    var tests: seq<SuiteTest> := [];
    var nodeCountsTested: set<nat> := {};
    PrependEmpty([], DimensionTests(req, dimension, req.sizes, {}));
    assert req.sizes[0..] == req.sizes;
    for i := 0 to |req.sizes|
      invariant DimensionTests(req, dimension, req.sizes, {}) ==
        Prepend(tests, DimensionTests(req, dimension, req.sizes[i..], nodeCountsTested))
    {
      var choice := BuildChaosMeshTargetSelectors(
        |req.nodes| + 1, req.nodes, req.sizes[i], req.isExec, req.client, dimension.MatchingNode?);
      assert choice == req.SelectorsOf(dimension, req.sizes[i]);
      var more, after := ComposeChoice(req, dimension, req.sizes[i], choice, nodeCountsTested);
      if more.Err? {
        return more;
      }
      assert req.sizes[i..][1..] == req.sizes[i + 1..];
      PrependTwice(tests, more.value, DimensionTests(req, dimension, req.sizes[i + 1..], after));
      tests, nodeCountsTested := tests + more.value, after;
    }
    PrependEmpty<SuiteTest, Failure>(tests, Ok([]));
    return Ok(tests);
  }

  method ComposeTestSuite(req: SuiteRequest) returns (r: Result<seq<SuiteTest>, Failure>)
    ensures r == SuiteTests(req, req.dimensions)
  {
    var tests: seq<SuiteTest> := [];
    PrependEmpty([], SuiteTests(req, req.dimensions));
    assert req.dimensions[0..] == req.dimensions;
    for i := 0 to |req.dimensions|
      invariant SuiteTests(req, req.dimensions) == Prepend(tests, SuiteTests(req, req.dimensions[i..]))
    {
      if req.dimensions[i].UnsupportedSpec? {
        return Err(UnsupportedDimension);
      }
      var more := ComposeDimension(req, req.dimensions[i]);
      if more.Err? {
        return more;
      }
      assert req.dimensions[i..][1..] == req.dimensions[i + 1..];
      PrependTwice(tests, more.value, SuiteTests(req, req.dimensions[i + 1..]));
      tests := tests + more.value;
    }
    PrependEmpty<SuiteTest, Failure>(tests, Ok([]));
    return Ok(tests);
  }
}
