/** Bounded retry and the failing-client maps of getExecBlockConsensus (pkg/health/ethereum/execution_rpc.go).
    getBeaconClientConsensus in beacon_rpc.go has the same body. */
module BlockConsensus {
  import opened Common
  import opened ForkConsensus

  /** BlockConsensusTestResult. The keys of both maps are pod names. */
  datatype TestResult = TestResult(
    consensusBlock: nat, consensusHash: string,
    failingBlock: map<string, nat>, failingHash: map<string, string>)

  /** One round of RPC calls to all clients: their votes, or the first RPC error. */
  type Poll = Result<seq<Vote>, string>

  /** `IndexPanic` is the run-time panic of indexing an empty consensus list. */
  datatype CheckOutcome<+T> = Checked(value: T) | CheckFailed(error: string) | IndexPanic

  /** What a loop over the wrong votes leaves in a map: the last report of each pod. */
  function Reported<K>(key: Vote -> K, wrong: seq<Vote>): map<string, K> {
    if wrong == [] then map[]
    else
      var last := wrong[|wrong| - 1];
      Reported(key, wrong[..|wrong| - 1])[last.pod := key(last)]
  }

  function ResultOf(out: ForkOutcome): TestResult
    requires out.rightHeight != [] && out.rightHash != []
  {
    TestResult(out.rightHeight[0].height, out.rightHash[0].hash,
               Reported(Height, out.wrongHeight), Reported(Hash, out.wrongHash))
  }

  /** `result` is what the check reports for these votes under some iteration order of the vote maps. */
  ghost predicate Reports(votes: seq<Vote>, result: TestResult) {
    exists heights, hashes :: Orders(votes, heights, hashes) && ReportsUnder(votes, heights, hashes, result)
  }

  ghost predicate ReportsUnder(votes: seq<Vote>, heights: seq<nat>, hashes: seq<string>, result: TestResult) {
    var out := Determine(votes, heights, hashes);
    out.rightHeight != [] && out.rightHash != [] && result == ResultOf(out)
  }

  ghost predicate Answers(poll: Poll, r: CheckOutcome<TestResult>) {
    match poll
    case Err(e) => r == CheckFailed(e)
    case Ok(votes) => if votes == [] then r == IndexPanic else r.Checked? && Reports(votes, r.value)
  }

  /** The clients answered, but not all at one height: the only reason for another attempt. */
  ghost predicate Disagrees(poll: Poll) {
    poll.Ok? && !HeightsAgree(poll.value)
  }

  /** Of the polls the attempts allowed would meet, the one whose answer is reported: the first that does not
      call for a retry, or the last. */
  ghost function FinalPoll(polls: seq<Poll>): (i: nat)
    requires polls != []
    ensures i < |polls|
    ensures forall j :: 0 <= j < i ==> Disagrees(polls[j])
    ensures i < |polls| - 1 ==> !Disagrees(polls[i])
  {
    if |polls| == 1 || !Disagrees(polls[0]) then 0 else 1 + FinalPoll(polls[1..])
  }

  method Report<K>(key: Vote -> K, wrong: seq<Vote>) returns (m: map<string, K>)
    ensures m == Reported(key, wrong)
  {
    m := map[];
    for i := 0 to |wrong|
      invariant m == Reported(key, wrong[..i])
    {
      assert wrong[..i + 1][..i] == wrong[..i];
      m := m[wrong[i].pod := key(wrong[i])];
    }
    assert wrong[..|wrong|] == wrong;
  }

  method GetBlockConsensus(polls: seq<Poll>, maxAttempts: nat) returns (r: CheckOutcome<TestResult>)
    requires |polls| == maxAttempts + 1
    ensures Answers(polls[FinalPoll(polls)], r)
    decreases maxAttempts
  {
    if polls[0].Err? {
      return CheckFailed(polls[0].error);
    }
    var votes := polls[0].value;
    var out := DetermineForkConsensus(votes);
    ghost var heights, hashes :| Orders(votes, heights, hashes) && out == Determine(votes, heights, hashes);
    NothingWrongIffUnanimous(votes, heights, hashes);
    if |out.wrongHeight| > 0 && maxAttempts > 0 {
      r := GetBlockConsensus(polls[1..], maxAttempts - 1);
      return;
    }
    var blockNumWrong := Report(Height, out.wrongHeight);
    var blockHashWrong := Report(Hash, out.wrongHash);
    if votes == [] {
      OrderBegins(heights, KeysOf(Height, votes));
      return IndexPanic;
    }
    var height, hash := ConsensusIsPlurality(votes, heights, hashes);
    NoVotes(Height, height, votes);
    assert ReportsUnder(votes, heights, hashes, ResultOf(out));
    return Checked(TestResult(out.rightHeight[0].height, out.rightHash[0].hash, blockNumWrong, blockHashWrong));
  }

  // ---------------------------------------------------------------- what a report says

  lemma {:induction false} ReportedKeys<K>(key: Vote -> K, wrong: seq<Vote>)
    ensures Reported(key, wrong).Keys == PodsOf(set v | v in wrong)
  {
    if wrong != [] {
      var n := |wrong| - 1;
      ReportedKeys(key, wrong[..n]);
      assert wrong == wrong[..n] + [wrong[n]];
    }
  }

  lemma {:induction false} ReportedValues<K>(key: Vote -> K, wrong: seq<Vote>)
    requires forall v, w :: v in wrong && w in wrong && v.pod == w.pod ==> v == w
    ensures forall v :: v in wrong ==> v.pod in Reported(key, wrong) && Reported(key, wrong)[v.pod] == key(v)
  {
    if wrong != [] {
      var n := |wrong| - 1;
      assert wrong == wrong[..n] + [wrong[n]];
      ReportedValues(key, wrong[..n]);
    }
  }

  /** A pod listed several times is reported with its last wrong vote. */
  lemma {:induction false} LastReportWins<K>(key: Vote -> K, wrong: seq<Vote>, pod: string) returns (i: nat)
    requires pod in Reported(key, wrong)
    ensures i < |wrong| && wrong[i].pod == pod && Reported(key, wrong)[pod] == key(wrong[i])
    ensures forall j :: i < j < |wrong| ==> wrong[j].pod != pod
  {
    var n := |wrong| - 1;
    if wrong[n].pod == pod {
      i := n;
    } else {
      i := LastReportWins(key, wrong[..n], pod);
    }
  }

  ghost predicate DistinctPods(votes: seq<Vote>) {
    forall i, j :: 0 <= i < j < |votes| ==> votes[i].pod != votes[j].pod
  }

  ghost function PodsOf(votes: set<Vote>): set<string> {
    set v | v in votes :: v.pod
  }

  ghost function OffHeight(votes: seq<Vote>, r: TestResult): set<Vote> {
    set v | v in votes && v.height != r.consensusBlock
  }

  ghost function OffHash(votes: seq<Vote>, r: TestResult): set<Vote> {
    set v | v in votes && v.height == r.consensusBlock && v.hash != r.consensusHash
  }

  ghost function Agreeing(votes: seq<Vote>, r: TestResult): set<Vote> {
    set v | v in votes && v.height == r.consensusBlock && v.hash == r.consensusHash
  }

  /** The failing maps hold exactly the pods off the reported height, and the pods at that height with another
      hash; the reported block is some client's vote. */
  lemma ReportIsExact(votes: seq<Vote>, r: TestResult)
    requires votes != [] && Reports(votes, r)
    ensures r.failingBlock.Keys == PodsOf(OffHeight(votes, r))
    ensures r.failingHash.Keys == PodsOf(OffHash(votes, r))
    ensures Agreeing(votes, r) != {}
  {
    var heights, hashes :| Orders(votes, heights, hashes) && ReportsUnder(votes, heights, hashes, r);
    Losers(votes, heights, hashes, r);
    ReportedKeys(Height, Determine(votes, heights, hashes).wrongHeight);
    ReportedKeys(Hash, Determine(votes, heights, hashes).wrongHash);
  }

  /** The reported height is a plurality, and the reported hash is a plurality at that height. */
  lemma ReportIsPlurality(votes: seq<Vote>, r: TestResult)
    requires votes != [] && Reports(votes, r)
    ensures IsPlurality(Height, r.consensusBlock, votes)
    ensures IsPlurality(Hash, r.consensusHash, VotesFor(Height, r.consensusBlock, votes))
  {
    var heights, hashes :| Orders(votes, heights, hashes) && ReportsUnder(votes, heights, hashes, r);
    var height, hash := ConsensusIsPlurality(votes, heights, hashes);
    assert Determine(votes, heights, hashes).rightHeight[0] in Determine(votes, heights, hashes).rightHeight;
    assert Determine(votes, heights, hashes).rightHash[0] in Determine(votes, heights, hashes).rightHash;
  }

  /** With distinct pod names, each failing pod is listed with the height or hash it voted. */
  lemma ReportedVotes(votes: seq<Vote>, r: TestResult)
    requires votes != [] && Reports(votes, r) && DistinctPods(votes)
    ensures forall v :: v in OffHeight(votes, r) ==> v.pod in r.failingBlock && r.failingBlock[v.pod] == v.height
    ensures forall v :: v in OffHash(votes, r) ==> v.pod in r.failingHash && r.failingHash[v.pod] == v.hash
  {
    var heights, hashes :| Orders(votes, heights, hashes) && ReportsUnder(votes, heights, hashes, r);
    Losers(votes, heights, hashes, r);
    PodsIdentify(votes);
    var out := Determine(votes, heights, hashes);
    assert forall v :: v in out.wrongHeight ==> v in OffHeight(votes, r);
    assert forall v :: v in out.wrongHash ==> v in OffHash(votes, r);
    ReportedValues(Height, out.wrongHeight);
    ReportedValues(Hash, out.wrongHash);
    forall v | v in OffHeight(votes, r) ensures v in out.wrongHeight {
      assert v in set v | v in out.wrongHeight;
    }
    forall v | v in OffHash(votes, r) ensures v in out.wrongHash {
      assert v in set v | v in out.wrongHash;
    }
  }

  lemma Losers(votes: seq<Vote>, heights: seq<nat>, hashes: seq<string>, r: TestResult)
    requires votes != [] && Orders(votes, heights, hashes) && ReportsUnder(votes, heights, hashes, r)
    ensures (set v | v in Determine(votes, heights, hashes).wrongHeight) == OffHeight(votes, r)
    ensures (set v | v in Determine(votes, heights, hashes).wrongHash) == OffHash(votes, r)
    ensures Agreeing(votes, r) != {}
  {
    var out := Determine(votes, heights, hashes);
    var height, hash := ConsensusIsPlurality(votes, heights, hashes);
    var v, w := out.rightHeight[0], out.rightHash[0];
    assert v in out.rightHeight && w in out.rightHash;
    LoserSets(votes, out, r);
    SplitMembers(votes, out.rightHeight, out.wrongHeight);
    SplitMembers(out.rightHeight, out.rightHash, out.wrongHash);
    assert w in Agreeing(votes, r);
  }

  lemma LoserSets(votes: seq<Vote>, out: ForkOutcome, r: TestResult)
    requires multiset(out.rightHeight) + multiset(out.wrongHeight) == multiset(votes)
    requires multiset(out.rightHash) + multiset(out.wrongHash) == multiset(out.rightHeight)
    requires forall v :: v in out.rightHeight ==> v.height == r.consensusBlock
    requires forall v :: v in out.wrongHeight ==> v.height != r.consensusBlock
    requires forall v :: v in out.rightHash ==> v.hash == r.consensusHash
    requires forall v :: v in out.wrongHash ==> v.hash != r.consensusHash
    ensures (set v | v in out.wrongHeight) == OffHeight(votes, r)
    ensures (set v | v in out.wrongHash) == OffHash(votes, r)
  {
    SplitMembers(votes, out.rightHeight, out.wrongHeight);
    SplitMembers(out.rightHeight, out.rightHash, out.wrongHash);
  }

  lemma PodsIdentify(votes: seq<Vote>)
    requires DistinctPods(votes)
    ensures forall v, w :: v in votes && w in votes && v.pod == w.pod ==> v == w
  {
  }

  /** A check passes exactly when every client reported the same block. */
  lemma PassIffUnanimous(votes: seq<Vote>, r: TestResult)
    requires votes != [] && Reports(votes, r)
    ensures |r.failingBlock| == 0 && |r.failingHash| == 0 <==> Unanimous(votes)
  {
    ReportIsExact(votes, r);
    var v :| v in Agreeing(votes, r);
    forall w | w in votes
      ensures w.height != v.height ==> w.pod in r.failingBlock
      ensures w.height == v.height && w.hash != v.hash ==> w.pod in r.failingHash
    {
      assert w.height != v.height ==> w in OffHeight(votes, r);
      assert w.height == v.height && w.hash != v.hash ==> w in OffHash(votes, r);
    }
    if |r.failingBlock| == 0 && |r.failingHash| == 0 {
      assert forall w :: w in votes ==> w.height == v.height && w.hash == v.hash;
    }
  }

  /** With distinct pod names, the pods failing by height, failing by hash and agreeing are disjoint and
      add up to the pods polled. */
  lemma PodsAddUp(votes: seq<Vote>, r: TestResult)
    requires votes != [] && Reports(votes, r) && DistinctPods(votes)
    ensures r.failingBlock.Keys !! r.failingHash.Keys !! PodsOf(Agreeing(votes, r))
    ensures |r.failingBlock| + |r.failingHash| + |PodsOf(Agreeing(votes, r))| == |votes|
  {
    ReportIsExact(votes, r);
    PodsIdentify(votes);
    ThreeGroups(votes, OffHeight(votes, r), OffHash(votes, r), Agreeing(votes, r));
  }

  lemma ThreeGroups(votes: seq<Vote>, a: set<Vote>, b: set<Vote>, c: set<Vote>)
    requires DistinctPods(votes) && a !! b !! c && (set v | v in votes) == a + b + c
    requires forall v, w :: v in votes && w in votes && v.pod == w.pod ==> v == w
    ensures PodsOf(a) !! PodsOf(b) !! PodsOf(c)
    ensures |PodsOf(a)| + |PodsOf(b)| + |PodsOf(c)| == |votes|
  {
    assert forall v :: v in a + b + c ==> v in votes;
    PodsApart(a, b);
    PodsApart(a + b, c);
    CountPods(votes);
  }

  lemma PodsApart(some: set<Vote>, others: set<Vote>)
    requires some !! others
    requires forall v, w :: v in some + others && w in some + others && v.pod == w.pod ==> v == w
    ensures PodsOf(some) !! PodsOf(others)
    ensures PodsOf(some + others) == PodsOf(some) + PodsOf(others)
    ensures |PodsOf(some + others)| == |PodsOf(some)| + |PodsOf(others)|
  {
    assert PodsOf(some + others) == PodsOf(some) + PodsOf(others);
  }

  lemma {:induction false} CountPods(votes: seq<Vote>)
    requires DistinctPods(votes)
    ensures |PodsOf(set v | v in votes)| == |votes|
  {
    if votes != [] {
      var n := |votes| - 1;
      CountPods(votes[..n]);
      assert votes == votes[..n] + [votes[n]];
      assert PodsOf(set v | v in votes) == PodsOf(set v | v in votes[..n]) + {votes[n].pod};
    }
  }
}
