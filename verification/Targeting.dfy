/** pkg/plan/suite/targeting.go: how many and which nodes an attack size targets, and the pod ids of a target. */
module Targeting {
  import opened Common
  import opened Strings
  import opened NetworkBuilder
  import opened NetworkTopology
  import opened NodeIds

  datatype AttackSize =
    | AttackOne | AttackAll
    | AttackMinority | AttackSuperminority | AttackMajority | AttackSupermajority
    | UnknownSize(name: string)

  datatype TargetingSpec = MatchingNode | MatchingClient | UnsupportedSpec(name: string)

  /** `CannotMeet` is CannotMeetConstraintError, `NoMatch` any other error, `IndexPanic` an index past the end
      of the targetable nodes. */
  datatype Choice<+T> = Chosen(value: T) | CannotMeet(size: AttackSize, count: nat) | NoMatch | IndexPanic

  // ---------------------------------------------------------------- how many

  /** float32(k) / float32(n) < num / den; every comparison with 0 / 0 is false. */
  predicate RatioBelow(k: nat, n: nat, num: nat, den: nat) { n != 0 && k * den < n * num }

  /** float32(k) / float32(n) <= num / den. */
  predicate RatioAtMost(k: nat, n: nat, num: nat, den: nat) { n != 0 && k * den <= n * num }

  /** float32(k) / float32(n) >= num / den. */
  predicate RatioAtLeast(k: nat, n: nat, num: nat, den: nat) { n != 0 && k * den >= n * num }

  /** The count an attack size asks for, after the one-step correction. */
  function RawCount(size: AttackSize, n: nat, available: nat): nat {
    match size
    case AttackOne => 1
    case AttackAll => available
    case AttackMinority => n * 32 / 100
    case AttackSuperminority =>
      var k := n * 34 / 100;
      if RatioBelow(k, n, 1, 3) then k + 1 else k
    case AttackMajority =>
      var k := n * 51 / 100;
      if RatioAtMost(k, n, 1, 2) then k + 1 else k
    case AttackSupermajority =>
      var k := n * 67 / 100;
      if RatioAtMost(k, n, 2, 3) then k + 1 else k
    case UnknownSize(_) => 0
  }

  /** The upper ratio test of an attack size. */
  predicate RatioRejects(size: AttackSize, n: nat, k: nat) {
    match size
    case AttackSuperminority => RatioAtLeast(k, n, 1, 2)
    case AttackMajority => RatioAtLeast(k, n, 66, 100)
    case AttackSupermajority => n != 0 && k > n
    case _ => false
  }

  predicate IsBand(size: AttackSize) {
    size.AttackMinority? || size.AttackSuperminority? || size.AttackMajority? || size.AttackSupermajority?
  }

  /** The number of nodes to target, or the count reported with the refusal. */
  function TargetCountFor(size: AttackSize, n: nat, available: nat): Result<nat, nat> {
    var k := RawCount(size, n, available);
    if RatioRejects(size, n, k) || (IsBand(size) && k > available) then Err(n)
    else if k == 0 then Err(available)
    else Ok(k)
  }

  /** What a selection of targets from `targetable` must be. */
  function Selection(size: AttackSize, n: nat, targetable: seq<Node>): Choice<seq<Node>> {
    match TargetCountFor(size, n, |targetable|)
    case Err(count) => CannotMeet(size, count)
    case Ok(k) => if k <= |targetable| then Chosen(targetable[..k]) else IndexPanic
  }

  // ---------------------------------------------------------------- the code

  function ClientCriteria(isExec: bool, client: string): Node -> bool {
    n => Matches(isExec, client, n)
  }

  function Filtered(nodes: seq<Node>, criteria: Node -> bool): seq<Node> {
    if nodes == [] then []
    else Filtered(nodes[..|nodes| - 1], criteria) + if criteria(nodes[|nodes| - 1]) then [nodes[|nodes| - 1]] else []
  }

  method FilterNodes(nodes: seq<Node>, criteria: Node -> bool) returns (result: seq<Node>)
    ensures result == Filtered(nodes, criteria)
  {
    result := [];
    for i := 0 to |nodes|
      invariant result == Filtered(nodes[..i], criteria)
    {
      assert nodes[..i + 1][..i] == nodes[..i];
      if criteria(nodes[i]) {
        result := result + [nodes[i]];
      }
    }
    assert nodes[..|nodes|] == nodes;
  }

  /** Exactly the nodes that meet the criteria, in order. */
  lemma {:induction false} FilteredIsFilter(nodes: seq<Node>, criteria: Node -> bool)
    ensures IsFilter(nodes, Filtered(nodes, criteria), criteria)
  {
    if nodes == [] {
      NothingToFilter(criteria);
    } else {
      var n := |nodes| - 1;
      FilteredIsFilter(nodes[..n], criteria);
      FilterSnoc(nodes[..n], Filtered(nodes[..n], criteria), criteria, nodes[n]);
      assert nodes == nodes[..n] + [nodes[n]];
    }
  }

  /** The switch of chooseTargetsUsingAttackSize, ending with the test for zero nodes. */
  method CountNodesToTarget(size: AttackSize, networkSize: nat, available: nat) returns (r: Result<nat, nat>)
    ensures r == TargetCountFor(size, networkSize, available)
  {
    var k: nat := 0;
    match size {
      case AttackOne =>
        k := 1;
      case AttackAll =>
        k := available;
      case AttackMinority =>
        k := networkSize * 32 / 100;
        if k > available {
          return Err(networkSize);
        }
      case AttackSuperminority =>
        k := networkSize * 34 / 100;
        if RatioBelow(k, networkSize, 1, 3) {
          k := k + 1;
        }
        if RatioAtLeast(k, networkSize, 1, 2) || k > available {
          return Err(networkSize);
        }
      case AttackMajority =>
        k := networkSize * 51 / 100;
        if RatioAtMost(k, networkSize, 1, 2) {
          k := k + 1;
        }
        if RatioAtLeast(k, networkSize, 66, 100) || k > available {
          return Err(networkSize);
        }
      case AttackSupermajority =>
        k := networkSize * 67 / 100;
        if RatioAtMost(k, networkSize, 2, 3) {
          k := k + 1;
        }
        if (networkSize != 0 && k > networkSize) || k > available {
          return Err(networkSize);
        }
      case UnknownSize(_) =>
    }
    return if k == 0 then Err(available) else Ok(k);
  }

  method ChooseTargetsUsingAttackSize(size: AttackSize, networkSize: nat, targetable: seq<Node>)
    returns (c: Choice<seq<Node>>)
    ensures c == Selection(size, networkSize, targetable)
  {
    var count := CountNodesToTarget(size, networkSize, |targetable|);
    if count.Err? {
      return CannotMeet(size, count.error);
    }
    var targets: seq<Node> := [];
    for i := 0 to count.value
      invariant i <= |targetable| && targets == targetable[..i]
    {
      if i >= |targetable| {
        return IndexPanic;
      }
      targets := targets + [targetable[i]];
    }
    return Chosen(targets);
  }

  /** filterNodesByExecClient and filterNodesByConsensusClient: only the former reports an empty match. */
  function SelectionFor(isExec: bool, client: string, size: AttackSize, n: nat, nodes: seq<Node>): Choice<seq<Node>> {
    var targetable := Filtered(nodes, ClientCriteria(isExec, client));
    if isExec && targetable == [] then NoMatch else Selection(size, n, targetable)
  }

  /** Every choice is a prefix of the matching nodes. */
  lemma ChosenIsPrefix(isExec: bool, client: string, size: AttackSize, n: nat, nodes: seq<Node>)
    requires SelectionFor(isExec, client, size, n, nodes).Chosen?
    ensures SelectionFor(isExec, client, size, n, nodes).value <= Filtered(nodes, ClientCriteria(isExec, client))
  {
  }

  method SelectTargets(isExec: bool, client: string, size: AttackSize, n: nat, nodes: seq<Node>)
    returns (c: Choice<seq<Node>>)
    ensures c == SelectionFor(isExec, client, size, n, nodes)
  {
    var targetable := FilterNodes(nodes, ClientCriteria(isExec, client));
    if isExec && targetable == [] {
      return NoMatch;
    }
    c := ChooseTargetsUsingAttackSize(size, n, targetable);
  }

  // ---------------------------------------------------------------- the bands

  /** The share of the network each attack size stands for: below a third, from a third to below a half, above
      a half and below 66 percent, above two thirds. */
  ghost predicate InBand(size: AttackSize, k: int, n: int) {
    match size
    case AttackMinority => 0 < 3 * k < n
    case AttackSuperminority => n <= 3 * k && 2 * k < n
    case AttackMajority => n < 2 * k && 100 * k < 66 * n
    case AttackSupermajority => 2 * n < 3 * k && k <= n
    case _ => false
  }

  /** An accepted count lies in the band of its attack size, and the nodes for it exist. One correction by 1 is
      always enough. */
  lemma AcceptedIsInBand(size: AttackSize, n: nat, available: nat)
    requires n >= 1 && IsBand(size) && TargetCountFor(size, n, available).Ok?
    ensures InBand(size, TargetCountFor(size, n, available).value, n)
    ensures 1 <= TargetCountFor(size, n, available).value <= available
  {
    match size
    case AttackMinority => assert n * 32 / 100 * 100 <= n * 32;
    case AttackSuperminority => assert n * 34 / 100 * 100 > n * 34 - 100;
    case AttackMajority => assert n * 51 / 100 * 100 > n * 51 - 100;
    case AttackSupermajority => assert n * 67 / 100 * 100 > n * 67 - 100;
  }

  /** An attack size is refused exactly when no count at all lies in its band, or when the count it settles on
      exceeds the nodes available. */
  lemma RefusedIff(size: AttackSize, n: nat, available: nat)
    requires n >= 1 && IsBand(size)
    ensures TargetCountFor(size, n, available).Err? <==>
      (forall k: int :: !InBand(size, k, n)) || RawCount(size, n, available) > available
  {
    var c := RawCount(size, n, available);
    var r := TargetCountFor(size, n, available);
    if r.Ok? {
      AcceptedIsInBand(size, n, available);
    } else if c <= available {
      forall k: int
        ensures !InBand(size, k, n)
      {
        BandIsEmpty(size, n, c, k);
      }
    }
  }

  lemma BandIsEmpty(size: AttackSize, n: nat, c: nat, k: int)
    requires n >= 1 && IsBand(size) && c == RawCount(size, n, 0)
    requires RatioRejects(size, n, c) || c == 0
    ensures !InBand(size, k, n)
  {
    match size
    case AttackMinority => assert n < 4;
    case AttackSuperminority => assert c == n * 34 / 100 + 1;
    case AttackMajority => assert c == n * 51 / 100 + 1;
    case AttackSupermajority =>
  }

  /** The test of the supermajority ratio against 1 never fires, and in a network of at least four nodes that
      are all targetable the minority is never refused. */
  lemma NeverRefused(n: nat)
    requires n >= 1
    ensures !RatioRejects(AttackSupermajority, n, RawCount(AttackSupermajority, n, n))
    ensures TargetCountFor(AttackSupermajority, n, n).Ok?
    ensures TargetCountFor(AttackMinority, n, n).Ok? <==> n >= 4
  {
    assert n * 67 / 100 < n;
    assert n * 32 / 100 * 100 > n * 32 - 100;
  }

  /** The least count in the band of an attack size. */
  function LeastInBand(size: AttackSize, n: nat): nat
    requires IsBand(size)
  {
    match size
    case AttackMinority => 1
    case AttackSuperminority => (n + 2) / 3
    case AttackMajority => n / 2 + 1
    case AttackSupermajority => 2 * n / 3 + 1
  }

  lemma LeastInBandIsLeast(size: AttackSize, n: nat, k: int)
    requires n >= 1 && IsBand(size) && InBand(size, k, n)
    ensures LeastInBand(size, n) <= k && InBand(size, LeastInBand(size, n), n)
  {
  }

  /** An attack size is refused although its band has a count for which there are nodes exactly when the nodes
      available reach the least count of the band, but not the one the code settles on. */
  lemma RefusedThoughMeetableIff(size: AttackSize, n: nat, available: nat)
    requires n >= 1 && IsBand(size)
    ensures TargetCountFor(size, n, available).Err? && (exists k: nat :: k <= available && InBand(size, k, n))
      <==> LeastInBand(size, n) <= available < RawCount(size, n, available)
  {
    var c, least := RawCount(size, n, available), LeastInBand(size, n);
    RefusedIff(size, n, available);
    if k: nat :| k <= available && InBand(size, k, n) {
      LeastInBandIsLeast(size, n, k);
    }
    if least <= available < c {
      RawCountBounds(size, n);
      assert InBand(size, least, n);
    }
  }

  /** When the count an attack size settles on is above the least of its band, the band is not empty. */
  lemma RawCountBounds(size: AttackSize, n: nat)
    requires n >= 1 && IsBand(size) && LeastInBand(size, n) < RawCount(size, n, 0)
    ensures InBand(size, LeastInBand(size, n), n)
  {
    match size
    case AttackMinority => assert n * 32 / 100 * 100 <= n * 32;
    case AttackSuperminority => assert n * 34 / 100 * 100 <= n * 34;
    case AttackMajority => assert n * 51 / 100 * 100 <= n * 51;
    case AttackSupermajority => assert n * 67 / 100 * 100 <= n * 67;
  }

  /** For example, 100 of 300 nodes are a third, but as a superminority the code asks for 102. */
  lemma RefusesAMeetableBand()
    ensures InBand(AttackSuperminority, 100, 300) && TargetCountFor(AttackSuperminority, 300, 100).Err?
  {
    assert RawCount(AttackSuperminority, 300, 100) == 102;
    RefusedThoughMeetableIff(AttackSuperminority, 300, 100);
  }

  /** The shares as documented: all bounds strict, with two thirds between majority and supermajority. */
  ghost predicate InDocumentedBand(size: AttackSize, k: int, n: int) {
    match size
    case AttackMinority => 0 < 3 * k < n
    case AttackSuperminority => n < 3 * k && 2 * k < n
    case AttackMajority => n < 2 * k && 3 * k < 2 * n
    case AttackSupermajority => 2 * n < 3 * k && k < n
    case _ => false
  }

  /** An accepted count is a share as documented, except that below 150 nodes a superminority of a number of nodes
      divisible by three is exactly a third, and that a supermajority of at most three nodes is all of them. */
  lemma DocumentedIff(size: AttackSize, n: nat, available: nat)
    requires n >= 1 && IsBand(size) && TargetCountFor(size, n, available).Ok?
    ensures InDocumentedBand(size, TargetCountFor(size, n, available).value, n) <==>
      !(size.AttackSuperminority? && n % 3 == 0 && n < 150) && !(size.AttackSupermajority? && n <= 3)
  {
    AcceptedIsInBand(size, n, available);
    match size
    case AttackMinority =>
    case AttackSuperminority =>
      assert n * 34 / 100 * 100 <= n * 34 < n * 34 / 100 * 100 + 100;
      if n % 3 == 0 {
        ThirdIff(n / 3);
      }
    case AttackMajority =>
    case AttackSupermajority => assert n * 67 / 100 * 100 <= n * 67;
  }

  /** 34 percent of a number of nodes divisible by three comes to exactly a third below 150 nodes. */
  lemma ThirdIff(third: nat)
    requires third >= 1
    ensures RawCount(AttackSuperminority, 3 * third, 0) == third <==> third < 50
  {
    assert 3 * third * 34 / 100 == third + third * 2 / 100;
  }

  /** The majority test against 66 percent refuses exactly the networks in which no count lies between a half
      and two thirds, as documented: the difference between the two limits never shows. */
  lemma MajorityEndsAtTwoThirds(n: nat)
    requires n >= 1
    ensures RatioRejects(AttackMajority, n, RawCount(AttackMajority, n, 0)) <==>
      forall k: int :: !InDocumentedBand(AttackMajority, k, n)
    ensures RatioRejects(AttackMajority, n, RawCount(AttackMajority, n, 0)) <==> n <= 4 || n == 6
  {
    var c := RawCount(AttackMajority, n, 0);
    assert n * 51 / 100 * 100 <= n * 51 < n * 51 / 100 * 100 + 100;
    if RatioRejects(AttackMajority, n, c) {
      assert n <= 6;
    } else {
      assert InDocumentedBand(AttackMajority, c, n);
    }
  }

  /** The cases of the repository's unit test of chooseTargetsUsingAttackSize: attack size, network size, nodes
      that can be targeted, and the expected count or refusal. */
  lemma UnitTestCases()
    ensures TargetCountFor(AttackAll, 10, 10) == Ok(10) && TargetCountFor(AttackOne, 10, 10) == Ok(1)
    ensures TargetCountFor(AttackMinority, 10, 10) == Ok(3) && TargetCountFor(AttackSuperminority, 10, 10) == Ok(4)
    ensures TargetCountFor(AttackMajority, 10, 10) == Ok(6) && TargetCountFor(AttackSupermajority, 10, 10) == Ok(7)
    ensures TargetCountFor(AttackAll, 10, 5) == Ok(5) && TargetCountFor(AttackSuperminority, 10, 5) == Ok(4)
    ensures TargetCountFor(AttackMinority, 10, 5) == Ok(3) && TargetCountFor(AttackSupermajority, 10, 5).Err?
    ensures TargetCountFor(AttackMajority, 4, 4).Err?
  {
  }

  /** The counts in the committed plans: 12, 6 and 7 nodes, of which 5 are targets. */
  lemma CommittedCounts()
    ensures TargetCountFor(AttackOne, 12, 5) == Ok(1) && TargetCountFor(AttackMinority, 12, 5) == Ok(3)
    ensures TargetCountFor(AttackSuperminority, 12, 5) == Ok(4) && TargetCountFor(AttackAll, 12, 5) == Ok(5)
    ensures TargetCountFor(AttackSuperminority, 6, 5) == Ok(2) && TargetCountFor(AttackSupermajority, 6, 5) == Ok(5)
    ensures TargetCountFor(AttackMinority, 7, 5) == Ok(2) && TargetCountFor(AttackSuperminority, 7, 5) == Ok(3)
    ensures TargetCountFor(AttackMajority, 7, 5) == Ok(4) && TargetCountFor(AttackSupermajority, 7, 5) == Ok(5)
  {
  }

  // ---------------------------------------------------------------- what is chosen

  /** k nodes are what the attack size stands for in a network of n nodes, `available` of them targetable. */
  ghost predicate Meets(size: AttackSize, k: int, n: int, available: int) {
    match size
    case AttackOne => k == 1
    case AttackAll => k == available
    case UnknownSize(_) => false
    case _ => InBand(size, k, n)
  }

  /** The count a share settles on: 32, 34, 51 or 67 percent of the network rounded down, but for the larger
      three no less than the least count in the band. */
  ghost predicate Settles(size: AttackSize, k: int, n: nat)
    requires IsBand(size)
  {
    match size
    case AttackMinority => 100 * k <= 32 * n < 100 * (k + 1)
    case AttackSuperminority => k == Max((n + 2) / 3, 34 * n / 100)
    case AttackMajority => k == Max(n / 2 + 1, 51 * n / 100)
    case AttackSupermajority => k == Max(2 * n / 3 + 1, 67 * n / 100)
  }

  lemma RawCountSettles(size: AttackSize, n: nat, available: nat)
    requires n >= 1 && IsBand(size)
    ensures Settles(size, RawCount(size, n, available), n)
  {
    match size
    case AttackMinority => assert n * 32 / 100 * 100 <= n * 32 < n * 32 / 100 * 100 + 100;
    case AttackSuperminority => assert n * 34 / 100 * 100 <= n * 34 < n * 34 / 100 * 100 + 100;
    case AttackMajority => assert n * 51 / 100 * 100 <= n * 51 < n * 51 / 100 * 100 + 100;
    case AttackSupermajority => assert n * 67 / 100 * 100 <= n * 67 < n * 67 / 100 * 100 + 100;
  }

  /** Some count that the share settles on lies in its band, and there are nodes for it. */
  ghost predicate Feasible(size: AttackSize, n: nat, available: nat)
    requires IsBand(size)
  {
    exists k :: Settles(size, k, n) && InBand(size, k, n) && k <= available
  }

  lemma SettlesOnce(size: AttackSize, k: int, l: int, n: nat)
    requires IsBand(size) && Settles(size, k, n) && Settles(size, l, n)
    ensures k == l
  {
  }

  lemma BandCountIff(size: AttackSize, n: nat, available: nat)
    requires n >= 1 && IsBand(size)
    ensures var r := TargetCountFor(size, n, available);
      && (r.Ok? <==> Feasible(size, n, available))
      && (r.Ok? ==> 1 <= r.value <= available && InBand(size, r.value, n) && Settles(size, r.value, n))
      && (r.Err? ==> r.error == if Settles(size, 0, n) then available else n)
  {
    var k := RawCount(size, n, available);
    RawCountSettles(size, n, available);
    RefusedIff(size, n, available);
    if TargetCountFor(size, n, available).Ok? {
      AcceptedIsInBand(size, n, available);
    } else {
      if Settles(size, 0, n) {
        SettlesOnce(size, 0, k, n);
      }
      if k' :| Settles(size, k', n) && InBand(size, k', n) && k' <= available {
        SettlesOnce(size, k, k', n);
      }
    }
  }

  /** What is chosen from the targetable nodes: the first ones, as many as the attack size stands for. A refusal
      names the attack size and the size of the network, or the number of targetable nodes if the size comes to
      no node at all. */
  lemma ChoiceIff(size: AttackSize, n: nat, targetable: seq<Node>)
    requires n >= 1
    ensures var (c, a) := (Selection(size, n, targetable), |targetable|);
      && (c.Chosen? <==> if IsBand(size) then Feasible(size, n, a) else !size.UnknownSize? && a >= 1)
      && (c.Chosen? ==>
            && 1 <= |c.value| <= a && c.value == targetable[..|c.value|]
            && Meets(size, |c.value|, n, a) && (IsBand(size) ==> Settles(size, |c.value|, n)))
      && (c == IndexPanic <==> size == AttackOne && a == 0)
      && (c.CannotMeet? ==> c.size == size && c.count == if IsBand(size) && !Settles(size, 0, n) then n else a)
      && c != NoMatch
  {
    if IsBand(size) {
      BandCountIff(size, n, |targetable|);
    }
  }

  function BandRank(size: AttackSize): nat
    requires IsBand(size)
  {
    match size
    case AttackMinority => 0
    case AttackSuperminority => 1
    case AttackMajority => 2
    case AttackSupermajority => 3
  }

  /** On one network the accepted counts strictly increase from minority to supermajority, so no two of these
      attack sizes are ever merged as duplicates. */
  lemma BandsIncrease(small: AttackSize, large: AttackSize, n: nat, available: nat)
    requires n >= 1 && IsBand(small) && IsBand(large) && BandRank(small) < BandRank(large)
    requires TargetCountFor(small, n, available).Ok? && TargetCountFor(large, n, available).Ok?
    ensures TargetCountFor(small, n, available).value < TargetCountFor(large, n, available).value
  {
    AcceptedIsInBand(small, n, available);
    AcceptedIsInBand(large, n, available);
  }

  /** Choosing targets runs past the targetable nodes exactly for "attack one" with none of them. */
  lemma PanicsIff(size: AttackSize, n: nat, targetable: seq<Node>)
    ensures Selection(size, n, targetable) == IndexPanic <==> size == AttackOne && targetable == []
  {
  }

  // ---------------------------------------------------------------- selectors

  datatype ExpressionSelector = ExpressionSelector(key: string, operator: string, values: seq<string>)

  datatype TargetSelector = TargetSelector(selector: seq<ExpressionSelector>)

  const POD_ID := "kurtosistech.com/id"

  /** The pod ids a target consists of: the whole node, or the client under test with its sidecar. */
  function TargetIds(wholeNode: bool, isExec: bool, count: nat, node: Node): seq<string> {
    (if wholeNode || isExec then [NodeIdTag(count, node, Execution)] else [])
    + (if wholeNode || !isExec then [NodeIdTag(count, node, Consensus)] else [])
    + (if (wholeNode || !isExec) && node.consensus.hasValidatorSidecar then [NodeIdTag(count, node, Validator)] else [])
  }

  function TargetSelectorFor(wholeNode: bool, isExec: bool, count: nat, node: Node): TargetSelector {
    TargetSelector([ExpressionSelector(POD_ID, "In", TargetIds(wholeNode, isExec, count, node))])
  }

  function Selectors(wholeNode: bool, isExec: bool, count: nat, nodes: seq<Node>): (s: seq<TargetSelector>)
    ensures |s| == |nodes|
    ensures forall i :: 0 <= i < |s| ==> s[i] == TargetSelectorFor(wholeNode, isExec, count, nodes[i])
  {
    seq(|nodes|, i requires 0 <= i < |nodes| => TargetSelectorFor(wholeNode, isExec, count, nodes[i]))
  }

  /** The selectors of the nodes chosen for an attack size, or the refusal. */
  function SelectorsFor(
    isExec: bool, client: string, size: AttackSize, wholeNode: bool, networkNodeCount: nat, nodes: seq<Node>)
    : Choice<seq<TargetSelector>>
  {
    match SelectionFor(isExec, client, size, |nodes| + 1, nodes)
    case Chosen(targets) => Chosen(Selectors(wholeNode, isExec, networkNodeCount, targets))
    case CannotMeet(s, n) => CannotMeet(s, n)
    case NoMatch => NoMatch
    case IndexPanic => IndexPanic
  }

  method ImpactSelectors(wholeNode: bool, isExec: bool, networkNodeCount: nat, targets: seq<Node>)
    returns (selectors: seq<TargetSelector>)
    ensures selectors == Selectors(wholeNode, isExec, networkNodeCount, targets)
  {
    selectors := [];
    for i := 0 to |targets|
      invariant selectors == Selectors(wholeNode, isExec, networkNodeCount, targets[..i])
    {
      selectors := selectors + [TargetSelectorFor(wholeNode, isExec, networkNodeCount, targets[i])];
    }
    assert targets[..|targets|] == targets;
  }

  method BuildChaosMeshTargetSelectors(
    networkNodeCount: nat, nodes: seq<Node>, size: AttackSize, isExec: bool, client: string, wholeNode: bool)
    returns (c: Choice<seq<TargetSelector>>)
    ensures c == SelectorsFor(isExec, client, size, wholeNode, networkNodeCount, nodes)
  {
    var targets := SelectTargets(isExec, client, size, |nodes| + 1, nodes);
    match targets
    case CannotMeet(s, n) => c := CannotMeet(s, n);
    case NoMatch => c := NoMatch;
    case IndexPanic => c := IndexPanic;
    case Chosen(chosen) =>
      var selectors := ImpactSelectors(wholeNode, isExec, networkNodeCount, chosen);
      c := Chosen(selectors);
  }

  // ---------------------------------------------------------------- no id twice

  /** The ids of a target are distinct, and belong to its node. */
  lemma IdsOfOneNode(wholeNode: bool, isExec: bool, count: nat, node: Node)
    ensures NoDuplicates(TargetIds(wholeNode, isExec, count, node))
    ensures forall id :: id in TargetIds(wholeNode, isExec, count, node) ==>
      exists k: ClientKind :: id == NodeIdTag(count, node, k)
    ensures TargetIds(wholeNode, isExec, count, node) != []
  {
    forall k1: ClientKind, k2: ClientKind | k1 != k2
      ensures NodeIdTag(count, node, k1) != NodeIdTag(count, node, k2)
    {
      if NodeIdTag(count, node, k1) == NodeIdTag(count, node, k2) {
        TagIsInjective(count, node, k1, node, k2);
      }
    }
  }

  /** The node runs a pod of this kind. */
  ghost predicate HasPod(node: Node, kind: ClientKind) {
    kind == Validator ==> node.consensus.hasValidatorSidecar
  }

  /** The type of client a pod runs; a validator belongs to the consensus client. */
  ghost function ClientOf(node: Node, kind: ClientKind): string {
    match kind
    case Execution => node.execution.kind
    case Consensus => node.consensus.kind
    case Validator => node.consensus.kind
  }

  /** The pod of this kind is to be hit: all pods of the node, or those of the client on the side of the target. */
  ghost predicate IsHit(wholeNode: bool, isExec: bool, node: Node, kind: ClientKind) {
    HasPod(node, kind) && (wholeNode || (isExec <==> kind == Execution))
  }

  /** The id is that of a pod of the node to be hit. */
  ghost predicate HitsPodOf(wholeNode: bool, isExec: bool, count: nat, node: Node, id: string) {
    exists kind: ClientKind :: IsHit(wholeNode, isExec, node, kind) && id == NodeIdTag(count, node, kind)
  }

  /** Which pods of a node a target consists of. */
  lemma TargetIdsExact(wholeNode: bool, isExec: bool, count: nat, node: Node, id: string)
    ensures id in TargetIds(wholeNode, isExec, count, node) <==> HitsPodOf(wholeNode, isExec, count, node, id)
  {
    IdsOfOneNode(wholeNode, isExec, count, node);
    if id in TargetIds(wholeNode, isExec, count, node) {
      var kind: ClientKind :| id == NodeIdTag(count, node, kind);
      TagsApart(count, node);
      assert IsHit(wholeNode, isExec, node, kind);
    }
  }

  lemma TagsApart(count: nat, node: Node)
    ensures forall k: ClientKind, l: ClientKind :: NodeIdTag(count, node, k) == NodeIdTag(count, node, l) ==> k == l
  {
    forall k: ClientKind, l: ClientKind | NodeIdTag(count, node, k) == NodeIdTag(count, node, l)
      ensures k == l
    {
      TagIsInjective(count, node, k, node, l);
    }
  }

  /** A target at the level of the client is made of pods that run the client under test, and always of its main
      one. */
  lemma ClientPodsHit(isExec: bool, client: string, count: nat, node: Node)
    requires Matches(isExec, client, node)
    ensures forall kind: ClientKind :: IsHit(false, isExec, node, kind) ==> ClientOf(node, kind) == client
    ensures NodeIdTag(count, node, if isExec then Execution else Consensus) in TargetIds(false, isExec, count, node)
  {
    TargetIdsExact(false, isExec, count, node, NodeIdTag(count, node, if isExec then Execution else Consensus));
  }

  /** Nodes with different numbers share no id. */
  lemma IdsOfTwoNodes(wholeNode: bool, isExec: bool, count: nat, a: Node, b: Node, id: string)
    requires id in TargetIds(wholeNode, isExec, count, a) && id in TargetIds(true, isExec, count, b)
    ensures a.index == b.index
  {
    IdsOfOneNode(wholeNode, isExec, count, a);
    IdsOfOneNode(true, isExec, count, b);
    var k: ClientKind :| id == NodeIdTag(count, a, k);
    var l: ClientKind :| id == NodeIdTag(count, b, l);
    TagIsInjective(count, a, k, b, l);
  }

  /** All ids selected for some targets, in order. */
  function AllIds(selectors: seq<TargetSelector>): seq<string> {
    if selectors == [] then []
    else IdsIn(selectors[0].selector) + AllIds(selectors[1..])
  }

  function IdsIn(selector: seq<ExpressionSelector>): seq<string> {
    if selector == [] then [] else selector[0].values + IdsIn(selector[1..])
  }

  ghost predicate DistinctIndices(nodes: seq<Node>) {
    forall i, j :: 0 <= i < j < |nodes| ==> nodes[i].index != nodes[j].index
  }

  /** Across all targets of one test no id is selected twice, and every id belongs to a targeted node. */
  lemma {:induction false} NoIdTwice(wholeNode: bool, isExec: bool, count: nat, targets: seq<Node>)
    requires DistinctIndices(targets)
    ensures NoDuplicates(AllIds(Selectors(wholeNode, isExec, count, targets)))
    ensures forall id :: id in AllIds(Selectors(wholeNode, isExec, count, targets)) ==>
      exists t :: t in targets && id in TargetIds(wholeNode, isExec, count, t)
  {
    var selectors := Selectors(wholeNode, isExec, count, targets);
    if targets != [] {
      assert selectors[1..] == Selectors(wholeNode, isExec, count, targets[1..]);
      NoIdTwice(wholeNode, isExec, count, targets[1..]);
      var first, others := TargetIds(wholeNode, isExec, count, targets[0]), AllIds(selectors[1..]);
      assert IdsIn(selectors[0].selector) == first by {
        assert selectors[0].selector[1..] == [];
      }
      IdsOfOneNode(wholeNode, isExec, count, targets[0]);
      forall id | id in others
        ensures id !in first
      {
        var t :| t in targets[1..] && id in TargetIds(wholeNode, isExec, count, t);
        if id in first {
          WholeNodeHasAll(wholeNode, isExec, count, t);
          IdsOfTwoNodes(wholeNode, isExec, count, targets[0], t, id);
        }
      }
      ConcatDistinct(first, others);
      assert targets[0] in targets;
    }
  }

  lemma WholeNodeHasAll(wholeNode: bool, isExec: bool, count: nat, node: Node)
    ensures forall id :: id in TargetIds(wholeNode, isExec, count, node) ==> id in TargetIds(true, isExec, count, node)
  {
  }

  lemma ConcatDistinct<T>(a: seq<T>, b: seq<T>)
    requires NoDuplicates(a) && NoDuplicates(b) && forall x :: x in a ==> x !in b
    ensures NoDuplicates(a + b)
  {
    forall i, j | 0 <= i < j < |a + b|
      ensures (a + b)[i] != (a + b)[j]
    {
      if i < |a| <= j {
        assert a[i] in a && b[j - |a|] in b;
      }
    }
  }
}
