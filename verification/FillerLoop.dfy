/** When the filler loop of pickExtraNodeClients returns, and how evenly it uses the client pairs. */
module FillerLoop {
  import opened NetworkBuilder

  // ---------------------------------------------------------------- the loop, one test at a time

  /** At the test of the execution loop, at the test of the consensus loop, or out; n nodes have been appended. */
  datatype LoopState = AtExec(e: nat, n: nat) | AtCons(e: nat, c: nat, n: nat) | Exited(n: nat)

  datatype Input = Input(nodeCount: int, target: string, execs: seq<ClientVersion>, conss: seq<ClientVersion>)

  function Step(input: Input, s: LoopState): LoopState {
    match s
    case Exited(_) => s
    case AtExec(e, n) =>
      if e >= |input.execs| then AtExec(0, n)
      else if input.execs[e].name == input.target then AtExec(e + 1, n)
      else AtCons(e, 0, n)
    case AtCons(e, c, n) =>
      if c >= |input.conss| then AtExec(e + 1, n)
      else if input.conss[c].name == input.target then AtCons(e, c + 1, n)
      else if n + 1 == input.nodeCount then Exited(n + 1)
      else AtCons(e, c + 1, n + 1)
  }

  function Run(input: Input, s: LoopState, steps: nat): LoopState
    decreases steps
  {
    if steps == 0 then s else Run(input, Step(input, s), steps - 1)
  }

  /** The loop returns after finitely many steps. */
  ghost predicate Returns(input: Input) {
    exists steps: nat :: Run(input, AtExec(0, 0), steps).Exited?
  }

  predicate HasOther(clients: seq<ClientVersion>, target: string) {
    exists i :: 0 <= i < |clients| && clients[i].name != target
  }

  /** States the loop can be in before it exits. */
  ghost predicate Sane(input: Input, s: LoopState) {
    match s
    case Exited(_) => false
    case AtExec(e, n) => e <= |input.execs|
    case AtCons(e, _, n) => e < |input.execs| && input.execs[e].name != input.target
  }

  lemma {:induction false} ExitNeedsOthers(input: Input, s: LoopState, steps: nat)
    requires Sane(input, s) && Run(input, s, steps).Exited?
    ensures input.nodeCount >= 1 && HasOther(input.execs, input.target) && HasOther(input.conss, input.target)
    decreases steps
  {
    if !Step(input, s).Exited? {
      ExitNeedsOthers(input, Step(input, s), steps - 1);
    }
  }

  /** Whether the loop is past the position (e, c) of a usable pair in the current pass. */
  ghost predicate Past(s: LoopState, e: nat, c: nat)
    requires !s.Exited?
  {
    s.e > e || (s.AtCons? && s.e == e && s.c > c)
  }

  /** The number of steps to the exit. Each step either appends a node, restarts a pass that is past the usable
      pair (e, c), or moves forward within the pass. */
  lemma {:induction false} StepsToExit(input: Input, s: LoopState, e: nat, c: nat) returns (steps: nat)
    requires Sane(input, s) && s.n < input.nodeCount
    requires e < |input.execs| && input.execs[e].name != input.target
    requires c < |input.conss| && input.conss[c].name != input.target
    ensures Run(input, s, steps).Exited?
    decreases
      input.nodeCount - s.n, Past(s, e, c), |input.execs| - s.e,
      if s.AtExec? then |input.conss| + 2 else if s.c <= |input.conss| then |input.conss| + 1 - s.c else 0
  {
    var next := Step(input, s);
    if next.Exited? {
      steps := 1;
      assert Run(input, next, 0).Exited?;
    } else {
      var rest := StepsToExit(input, next, e, c);
      steps := rest + 1;
    }
  }

  /** The loop returns exactly when at least one node is wanted and both lists have a client other than the
      target. In every other case no step ever reaches the exit. */
  lemma ReturnsIff(input: Input)
    ensures Returns(input) <==>
      input.nodeCount >= 1 && Others(input.execs, input.target) != [] && Others(input.conss, input.target) != []
  {
    HasOtherIff(input.execs, input.target);
    HasOtherIff(input.conss, input.target);
    if Returns(input) {
      var steps: nat :| Run(input, AtExec(0, 0), steps).Exited?;
      ExitNeedsOthers(input, AtExec(0, 0), steps);
    }
    if input.nodeCount >= 1 && HasOther(input.execs, input.target) && HasOther(input.conss, input.target) {
      var e :| 0 <= e < |input.execs| && input.execs[e].name != input.target;
      var c :| 0 <= c < |input.conss| && input.conss[c].name != input.target;
      var steps := StepsToExit(input, AtExec(0, 0), e, c);
    }
  }

  lemma HasOtherIff(clients: seq<ClientVersion>, target: string)
    ensures HasOther(clients, target) <==> Others(clients, target) != []
  {
    OthersMembers(clients, target);
    if Others(clients, target) != [] {
      assert Others(clients, target)[0] in clients;
    }
    if i :| 0 <= i < |clients| && clients[i].name != target {
      assert clients[i] in Others(clients, target);
    }
  }

  // ---------------------------------------------------------------- balance

  /** How many nodes run this pair of client types. */
  function Uses(nodes: seq<Node>, exec: string, cons: string): nat {
    if nodes == [] then 0
    else
      var last := nodes[|nodes| - 1];
      Uses(nodes[..|nodes| - 1], exec, cons)
      + if last.execution.kind == exec && last.consensus.kind == cons then 1 else 0
  }

  lemma RowBelow(r: nat, m: nat, n: nat)
    requires n > 0 && r < m * n
    ensures r / n < m
  {
    if r / n >= m {
      MulMonotone(m, r / n, n);
    }
  }

  lemma RowOf(k: nat, q: nat, r: nat, m: nat, n: nat)
    requires n > 0 && m > 0 && r < m * n && k == q * (m * n) + r
    ensures (k / n) % m == r / n && k % n == r % n
  {
    RowBelow(r, m, n);
    var a, b := r / n, r % n;
    assert k == (q * m + a) * n + b by {
      assert r == n * a + b;
      assert q * (m * n) == (q * m) * n;
      assert (q * m + a) * n == (q * m) * n + a * n;
    }
    QuotientIs(k, q * m + a, n, b);
    QuotientIs(q * m + a, q, m, a);
  }

  /** Pair (i, j) is used by filler k exactly when k is i * |C| + j modulo the number of pairs. */
  lemma PairOfFiller(
    start: nat, execs: seq<ClientVersion>, conss: seq<ClientVersion>, k: nat, q: nat, r: nat, i: nat, j: nat)
    requires execs != [] && conss != [] && DistinctNames(execs) && DistinctNames(conss)
    requires i < |execs| && j < |conss| && r < |execs| * |conss| && k == q * (|execs| * |conss|) + r
    ensures var node := Filler(start, execs, conss, k);
      (node.execution.kind == execs[i].name && node.consensus.kind == conss[j].name) <==> r == i * |conss| + j
  {
    RowBelow(r, |execs|, |conss|);
    RowOf(k, q, r, |execs|, |conss|);
    var a, b := r / |conss|, r % |conss|;
    var node := Filler(start, execs, conss, k);
    assert node.execution.kind == execs[a].name && node.consensus.kind == conss[b].name;
    assert r == |conss| * a + b;
    if r == i * |conss| + j {
      SameQuotient(i, a, |conss|, j, b);
    }
  }

  /** n fillers use pair (i, j) n / M times, once more if the last, partial pass over the M pairs reached it. */
  lemma {:induction false} UsesExactly(
    nodes: seq<Node>, start: nat, execs: seq<ClientVersion>, conss: seq<ClientVersion>, i: nat, j: nat)
    returns (q: nat, r: nat)
    requires AreFillers(nodes, start, execs, conss) && DistinctNames(execs) && DistinctNames(conss)
    requires i < |execs| && j < |conss|
    ensures r < |execs| * |conss| && |nodes| == q * (|execs| * |conss|) + r
    ensures Uses(nodes, execs[i].name, conss[j].name) == q + if r > i * |conss| + j then 1 else 0
  {
    var M := |execs| * |conss|;
    MulMonotone(1, |execs|, |conss|);
    if nodes == [] {
      q, r := 0, 0;
    } else {
      var n := |nodes| - 1;
      q, r := UsesExactly(nodes[..n], start, execs, conss, i, j);
      PairOfFiller(start, execs, conss, n, q, r, i, j);
      if r + 1 < M {
        r := r + 1;
      } else {
        assert i * |conss| + j < M by {
          MulMonotone(i + 1, |execs|, |conss|);
          assert (i + 1) * |conss| == i * |conss| + |conss|;
        }
        assert q * M + M == (q + 1) * M;
        q, r := q + 1, 0;
      }
    }
  }

  /** Any two client pairs are used a number of times that differs by at most one. */
  lemma FillersAreBalanced(
    nodes: seq<Node>, start: nat, execs: seq<ClientVersion>, conss: seq<ClientVersion>,
    i: nat, j: nat, i': nat, j': nat)
    requires AreFillers(nodes, start, execs, conss) && DistinctNames(execs) && DistinctNames(conss)
    requires i < |execs| && j < |conss| && i' < |execs| && j' < |conss|
    ensures Uses(nodes, execs[i].name, conss[j].name) <= Uses(nodes, execs[i'].name, conss[j'].name) + 1
  {
    var q, r := UsesExactly(nodes, start, execs, conss, i, j);
    var q', r' := UsesExactly(nodes, start, execs, conss, i', j');
    SameQuotient(q, q', |execs| * |conss|, r, r');
  }
}
