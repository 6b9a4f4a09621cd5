/** convertResultToArtifact of pkg/health/ethereum/network_checker.go: which clients failed, and the ledger of
    when each of them recovered. */
module RecoveryLedger {
  import opened Common
  import opened BlockConsensus

  /** BlockConsensusArtifact. */
  datatype Artifact = Artifact(
    result: TestResult,
    didUnfaultedNodesFail: bool,
    didUnfaultedNodesNeedToRecover: bool,
    recoverySeconds: map<string, int>)

  ghost predicate Failing(r: TestResult, client: string) {
    client in r.failingBlock || client in r.failingHash
  }

  /** The client drops out of one of the two failing maps. */
  ghost predicate Leaves(prev: TestResult, cur: TestResult, client: string) {
    || (client in prev.failingHash && client !in cur.failingHash)
    || (client in prev.failingBlock && client !in cur.failingBlock)
  }

  ghost function Leavers(prev: TestResult, cur: TestResult): set<string> {
    (prev.failingHash.Keys - cur.failingHash.Keys) + (prev.failingBlock.Keys - cur.failingBlock.Keys)
  }

  /** The artifact of one round, given that of the round before. Earlier ledger entries win over new ones. */
  ghost function Convert(underTest: set<string>, prev: Option<Artifact>, cur: TestResult, seconds: int): Artifact {
    var recovered := if prev.None? then map[]
                     else (map c | c in Leavers(prev.value.result, cur) :: seconds) + prev.value.recoverySeconds;
    Artifact(cur,
             !(cur.failingBlock.Keys + cur.failingHash.Keys <= underTest),
             !(recovered.Keys <= underTest),
             recovered)
  }

  // ---------------------------------------------------------------- the code

  /** The two "mark as recovered" loops: clients of `before` missing from `now` get the current time. */
  method MarkRecovered(recovered: map<string, int>, before: set<string>, now: set<string>, seconds: int)
    returns (r: map<string, int>)
    ensures r.Keys == recovered.Keys + (before - now)
    ensures forall c :: c in r ==> r[c] == if c in before - now then seconds else recovered[c]
  {
    r := recovered;
    var left := before;
    while left != {}
      invariant left <= before
      invariant r.Keys == recovered.Keys + (before - left - now)
      invariant forall c :: c in r ==> r[c] == if c in before - left - now then seconds else recovered[c]
      decreases left
    {
      var client :| client in left;
      left := left - {client};
      assert before - left - now ==
        if client in now then before - (left + {client}) - now else before - (left + {client}) - now + {client};
      if client !in now {
        r := r[client := seconds];
      }
    }
  }

  method AnyOutside(clients: set<string>, underTest: set<string>) returns (found: bool)
    ensures found <==> !(clients <= underTest)
  {
    found := false;
    var left := clients;
    while left != {}
      invariant left <= clients
      invariant found <==> !(clients - left <= underTest)
      decreases left
    {
      var client :| client in left;
      left := left - {client};
      assert clients - left == clients - (left + {client}) + {client};
      if client !in underTest {
        found := true;
      }
    }
  }

  method ConvertResultToArtifact(underTest: set<string>, prev: Option<Artifact>, result: TestResult, seconds: int)
    returns (a: Artifact)
    ensures a == Convert(underTest, prev, result, seconds)
  {
    var recovered: map<string, int> := map[];
    if prev.Some? {
      var p := prev.value;
      recovered := MarkRecovered(recovered, p.result.failingHash.Keys, result.failingHash.Keys, seconds);
      recovered := MarkRecovered(recovered, p.result.failingBlock.Keys, result.failingBlock.Keys, seconds);
      assert recovered == map c | c in Leavers(p.result, result) :: seconds;
      recovered := recovered + p.recoverySeconds;
    }
    var needed := AnyOutside(recovered.Keys, underTest);
    var failedBlock := AnyOutside(result.failingBlock.Keys, underTest);
    var failedHash := AnyOutside(result.failingHash.Keys, underTest);
    a := Artifact(result, failedBlock || failedHash, needed, recovered);
  }

  // ---------------------------------------------------------------- whole runs

  /** What one polling round found, and the seconds elapsed when it was converted. */
  datatype Round = Round(result: TestResult, seconds: int)

  /** The artifact after a run of rounds, each converted against the artifact of the round before. */
  ghost function ArtifactAfter(underTest: set<string>, rounds: seq<Round>): (a: Artifact)
    requires rounds != []
    ensures a.result == rounds[|rounds| - 1].result
  {
    var n := |rounds| - 1;
    Convert(underTest, if n == 0 then None else Some(ArtifactAfter(underTest, rounds[..n])),
            rounds[n].result, rounds[n].seconds)
  }

  ghost predicate LeavesAt(rounds: seq<Round>, client: string, i: int) {
    1 <= i < |rounds| && Leaves(rounds[i - 1].result, rounds[i].result, client)
  }

  ghost predicate FirstLeavesAt(rounds: seq<Round>, client: string, i: int) {
    LeavesAt(rounds, client, i) && forall j :: 0 <= j < i ==> !LeavesAt(rounds, client, j)
  }

  /** The last round enters the clients that leave a failing map and are not in the ledger yet. */
  lemma LedgerStep(underTest: set<string>, rounds: seq<Round>, client: string)
    requires |rounds| > 1
    ensures var n := |rounds| - 1;
      var before := ArtifactAfter(underTest, rounds[..n]).recoverySeconds;
      var after := ArtifactAfter(underTest, rounds).recoverySeconds;
      && (client in after <==> client in before || LeavesAt(rounds, client, n))
      && (client in after ==> after[client] == if client in before then before[client] else rounds[n].seconds)
  {
    var n := |rounds| - 1;
    assert LeavesAt(rounds, client, n) <==> client in Leavers(rounds[n - 1].result, rounds[n].result);
    assert ArtifactAfter(underTest, rounds[..n]).result == rounds[n - 1].result;
  }

  lemma FirstLeavesStep(rounds: seq<Round>, client: string, i: int)
    requires rounds != []
    ensures var n := |rounds| - 1;
      FirstLeavesAt(rounds[..n], client, i) <==> i < n && FirstLeavesAt(rounds, client, i)
  {
    var n := |rounds| - 1;
    forall j | j < n
      ensures LeavesAt(rounds[..n], client, j) <==> LeavesAt(rounds, client, j)
    {
    }
  }

  /** The client is in the ledger exactly if it left a failing map, with the seconds of the first such round. */
  ghost predicate ExactFor(ledger: map<string, int>, rounds: seq<Round>, client: string) {
    && (client in ledger <==> exists i :: FirstLeavesAt(rounds, client, i))
    && (forall i :: FirstLeavesAt(rounds, client, i) ==> client in ledger && ledger[client] == rounds[i].seconds)
  }

  lemma ExactStep(before: map<string, int>, after: map<string, int>, rounds: seq<Round>, client: string)
    requires |rounds| > 1 && ExactFor(before, rounds[..|rounds| - 1], client)
    requires client in after <==> client in before || LeavesAt(rounds, client, |rounds| - 1)
    requires client in after ==>
      after[client] == if client in before then before[client] else rounds[|rounds| - 1].seconds
    ensures ExactFor(after, rounds, client)
  {
    var n := |rounds| - 1;
    forall i
      ensures FirstLeavesAt(rounds[..n], client, i) <==> i < n && FirstLeavesAt(rounds, client, i)
    {
      FirstLeavesStep(rounds, client, i);
    }
    if client in before {
      var i :| FirstLeavesAt(rounds[..n], client, i);
      assert FirstLeavesAt(rounds, client, i);
    } else {
      NoFirstNone(rounds, client, n);
      assert FirstLeavesAt(rounds, client, n) <==> LeavesAt(rounds, client, n);
    }
  }

  /** The ledger holds exactly the clients that dropped out of a failing map between two consecutive rounds,
      each with the elapsed seconds of the first such round. */
  lemma {:induction false} LedgerIsExact(underTest: set<string>, rounds: seq<Round>, client: string)
    requires rounds != []
    ensures ExactFor(ArtifactAfter(underTest, rounds).recoverySeconds, rounds, client)
  {
    var n := |rounds| - 1;
    if n > 0 {
      LedgerIsExact(underTest, rounds[..n], client);
      LedgerStep(underTest, rounds, client);
      ExactStep(
        ArtifactAfter(underTest, rounds[..n]).recoverySeconds, ArtifactAfter(underTest, rounds).recoverySeconds,
        rounds, client);
    }
  }

  lemma {:induction false} NoFirstNone(rounds: seq<Round>, client: string, n: nat)
    requires forall i :: 0 <= i < n ==> !FirstLeavesAt(rounds, client, i)
    ensures forall i :: 0 <= i < n ==> !LeavesAt(rounds, client, i)
  {
    if n > 0 {
      NoFirstNone(rounds, client, n - 1);
      assert !FirstLeavesAt(rounds, client, n - 1);
    }
  }

  /** Ledger entries do not change or vanish, and the "needed to recover" flag does not go back to false. */
  ghost predicate LedgerKept(early: Artifact, late: Artifact) {
    && (forall c :: c in early.recoverySeconds ==>
          c in late.recoverySeconds && late.recoverySeconds[c] == early.recoverySeconds[c])
    && (early.didUnfaultedNodesNeedToRecover ==> late.didUnfaultedNodesNeedToRecover)
  }

  /** The flag says that the ledger has a client outside the fault. */
  ghost predicate FlagFits(underTest: set<string>, a: Artifact) {
    a.didUnfaultedNodesNeedToRecover <==> !(a.recoverySeconds.Keys <= underTest)
  }

  lemma ConvertKeeps(underTest: set<string>, prev: Artifact, cur: TestResult, seconds: int)
    requires FlagFits(underTest, prev)
    ensures LedgerKept(prev, Convert(underTest, Some(prev), cur, seconds))
  {
    var late := Convert(underTest, Some(prev), cur, seconds);
    assert prev.recoverySeconds.Keys <= late.recoverySeconds.Keys;
  }

  lemma ArtifactFlagFits(underTest: set<string>, rounds: seq<Round>)
    requires rounds != []
    ensures FlagFits(underTest, ArtifactAfter(underTest, rounds))
  {
  }

  /** Over any run the ledger only grows. */
  lemma {:induction false} LedgerOnlyGrows(underTest: set<string>, rounds: seq<Round>, m: nat)
    requires 0 < m <= |rounds|
    ensures LedgerKept(ArtifactAfter(underTest, rounds[..m]), ArtifactAfter(underTest, rounds))
  {
    var n := |rounds| - 1;
    if m == |rounds| {
      assert rounds[..m] == rounds;
    } else {
      var early, middle := ArtifactAfter(underTest, rounds[..m]), ArtifactAfter(underTest, rounds[..n]);
      LedgerOnlyGrows(underTest, rounds[..n], m);
      assert rounds[..n][..m] == rounds[..m];
      ArtifactFlagFits(underTest, rounds[..n]);
      ConvertKeeps(underTest, middle, rounds[n].result, rounds[n].seconds);
      KeptTwice(early, middle, ArtifactAfter(underTest, rounds));
    }
  }

  lemma KeptTwice(a: Artifact, b: Artifact, c: Artifact)
    requires LedgerKept(a, b) && LedgerKept(b, c)
    ensures LedgerKept(a, c)
  {
  }

  /** The flags report exactly the clients outside the fault: failing in the last round, and recovered ever. */
  lemma FlagsAreExact(underTest: set<string>, rounds: seq<Round>)
    requires rounds != []
    ensures var a := ArtifactAfter(underTest, rounds);
      && (a.didUnfaultedNodesFail <==> exists c :: c !in underTest && Failing(rounds[|rounds| - 1].result, c))
      && (a.didUnfaultedNodesNeedToRecover <==>
            exists c, i :: c !in underTest && LeavesAt(rounds, c, i))
  {
    var a := ArtifactAfter(underTest, rounds);
    if a.didUnfaultedNodesNeedToRecover {
      var c :| c in a.recoverySeconds && c !in underTest;
      LedgerIsExact(underTest, rounds, c);
      var i :| FirstLeavesAt(rounds, c, i);
      assert LeavesAt(rounds, c, i);
    }
    if c, i :| c !in underTest && LeavesAt(rounds, c, i) {
      LedgerIsExact(underTest, rounds, c);
      if forall j :: !FirstLeavesAt(rounds, c, j) {
        NoFirstNone(rounds, c, i + 1);
      }
      assert c in a.recoverySeconds;
    }
  }

  ghost predicate FailedBefore(rounds: seq<Round>, client: string, n: nat) {
    exists i :: 0 <= i < n && i < |rounds| && Failing(rounds[i].result, client)
  }

  /** A client that failed at round i and is passing at round n left a failing map in between. */
  lemma {:induction false} FailedThenLeft(rounds: seq<Round>, client: string, i: nat, n: nat) returns (j: nat)
    requires i <= n < |rounds|
    requires Failing(rounds[i].result, client) && !Failing(rounds[n].result, client)
    ensures LeavesAt(rounds, client, j)
    decreases n - i
  {
    if Failing(rounds[i + 1].result, client) && !LeavesAt(rounds, client, i + 1) {
      j := FailedThenLeft(rounds, client, i + 1, n);
    } else {
      j := i + 1;
    }
  }

  ghost predicate Passing(r: TestResult) {
    r.failingBlock == map[] && r.failingHash == map[]
  }

  /** When the last round passes, the ledger lists exactly the clients that failed in any earlier round. */
  lemma PassingLedgerIsEveryFailure(underTest: set<string>, rounds: seq<Round>, client: string)
    requires rounds != [] && Passing(rounds[|rounds| - 1].result)
    ensures client in ArtifactAfter(underTest, rounds).recoverySeconds
      <==> FailedBefore(rounds, client, |rounds| - 1)
  {
    LedgerIsExact(underTest, rounds, client);
    var n := |rounds| - 1;
    if client in ArtifactAfter(underTest, rounds).recoverySeconds {
      var i :| FirstLeavesAt(rounds, client, i);
      assert Failing(rounds[i - 1].result, client);
    }
    if FailedBefore(rounds, client, n) {
      var i :| 0 <= i < n && i < |rounds| && Failing(rounds[i].result, client);
      var j := FailedThenLeft(rounds, client, i, n);
      if forall k :: !FirstLeavesAt(rounds, client, k) {
        NoFirstNone(rounds, client, j + 1);
      }
    }
  }

  /** The client turns from a wrong height to a wrong hash or back. */
  ghost predicate Moves(prev: TestResult, cur: TestResult, client: string) {
    || (client in prev.failingHash && client !in cur.failingHash && client in cur.failingBlock)
    || (client in prev.failingBlock && client !in cur.failingBlock && client in cur.failingHash)
  }

  /** A client is entered in the ledger while it is still failing exactly when it moves from one failing map to
      the other: the code compares each map with its own predecessor only. */
  lemma RecordedWhileFailing(underTest: set<string>, rounds: seq<Round>, client: string, i: int)
    requires FirstLeavesAt(rounds, client, i)
    ensures client in ArtifactAfter(underTest, rounds[..i + 1]).recoverySeconds
    ensures client !in ArtifactAfter(underTest, rounds[..i]).recoverySeconds
    ensures Failing(rounds[i].result, client) <==> Moves(rounds[i - 1].result, rounds[i].result, client)
  {
    var upTo, before := rounds[..i + 1], rounds[..i];
    assert LeavesAt(upTo, client, i);
    forall j | 0 <= j < i
      ensures !LeavesAt(upTo, client, j) && !LeavesAt(before, client, j)
    {
      assert !LeavesAt(rounds, client, j);
    }
    assert FirstLeavesAt(upTo, client, i);
    LedgerIsExact(underTest, upTo, client);
    LedgerIsExact(underTest, before, client);
  }

  lemma MovingBetweenMapsCountsAsRecovery(underTest: set<string>)
    ensures var late := TestResult(8, "a", map["geth" := 7], map[]);
      var forked := TestResult(8, "a", map[], map["geth" := "b"]);
      var a := ArtifactAfter(underTest, [Round(late, 1), Round(forked, 2)]);
      "geth" in a.recoverySeconds && Failing(a.result, "geth")
  {
    var late := TestResult(8, "a", map["geth" := 7], map[]);
    var forked := TestResult(8, "a", map[], map["geth" := "b"]);
    var rounds := [Round(late, 1), Round(forked, 2)];
    assert rounds[..1] == [Round(late, 1)];
    assert ArtifactAfter(underTest, rounds[..1]).result == late;
    assert "geth" in Leavers(late, forked);
  }
}
