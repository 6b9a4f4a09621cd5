/** RunAllChecks (pkg/health/ethereum/network_checker.go) and the grace-period loop of pkg/health/checker.go. */
module HealthChecks {
  import opened Common
  import opened ForkConsensus
  import opened BlockConsensus
  import opened RecoveryLedger

  /** The four checks of a round, in the order in which they run. */
  datatype Check = LatestEl | FinalizedEl | LatestCl | FinalizedCl

  function MaxAttempts(c: Check): nat {
    if c.LatestEl? || c.LatestCl? then 15 else 3
  }

  /** What one check meets: the polls it may make, and the whole seconds elapsed when it converts its result. */
  datatype CheckEnv = CheckEnv(polls: seq<Poll>, seconds: int)

  /** What one round meets. `now` is the clock, in nanoseconds, when the loop decides whether to go on. */
  datatype RoundEnv = RoundEnv(
    dialError: Option<string>,
    latestEl: CheckEnv, finalizedEl: CheckEnv, latestCl: CheckEnv, finalizedCl: CheckEnv,
    now: int)
  {
    function Env(c: Check): CheckEnv {
      match c
      case LatestEl => latestEl
      case FinalizedEl => finalizedEl
      case LatestCl => latestCl
      case FinalizedCl => finalizedCl
    }

    ghost predicate Valid() {
      forall c: Check :: |Env(c).polls| == MaxAttempts(c) + 1
    }
  }

  /** HealthCheckResult, whose artifacts are nil before the first round. */
  datatype HealthCheckResult = HealthCheckResult(
    latestEl: Option<Artifact>, finalizedEl: Option<Artifact>,
    latestCl: Option<Artifact>, finalizedCl: Option<Artifact>)
  {
    function Get(c: Check): Option<Artifact> {
      match c
      case LatestEl => latestEl
      case FinalizedEl => finalizedEl
      case LatestCl => latestCl
      case FinalizedCl => finalizedCl
    }

    predicate Complete()
      ensures Complete() <==> forall c: Check :: Get(c).Some?
    {
      assert Get(LatestEl) == latestEl && Get(FinalizedEl) == finalizedEl;
      assert Get(LatestCl) == latestCl && Get(FinalizedCl) == finalizedCl;
      latestEl.Some? && finalizedEl.Some? && latestCl.Some? && finalizedCl.Some?
    }
  }

  const NO_RESULT := HealthCheckResult(None, None, None, None)
  const SECOND := 1_000_000_000

  /** The votes of the poll that decides a check. */
  ghost function Decisive(env: RoundEnv, c: Check): Poll
    requires env.Valid()
  {
    env.Env(c).polls[FinalPoll(env.Env(c).polls)]
  }

  /** The check has an answer to report: the deciding poll met no RPC error and at least one client. */
  ghost predicate Answered(env: RoundEnv, c: Check)
    requires env.Valid()
  {
    Decisive(env, c).Ok? && Decisive(env, c).value != []
  }

  /** A check of the latest block decides in at most 16 polls, one of the finalized block in at most 4; every poll
      before the deciding one found the clients at different heights. */
  lemma PollsAllowed(env: RoundEnv, c: Check)
    requires env.Valid()
    ensures FinalPoll(env.Env(c).polls) <= (if c == LatestEl || c == LatestCl then 15 else 3)
    ensures forall j :: 0 <= j < FinalPoll(env.Env(c).polls) ==>
      && env.Env(c).polls[j].Ok?
      && exists v, w :: v in env.Env(c).polls[j].value && w in env.Env(c).polls[j].value && v.height != w.height
    ensures FinalPoll(env.Env(c).polls) < (if c == LatestEl || c == LatestCl then 15 else 3) ==>
      Decisive(env, c).Ok? ==>
        forall v, w :: v in Decisive(env, c).value && w in Decisive(env, c).value ==> v.height == w.height
  {
    assert |env.Env(c).polls| == MaxAttempts(c) + 1;
  }

  /** What a check without an answer ends with: its RPC error, or the panic if no client voted. */
  ghost function Unanswered<T>(env: RoundEnv, c: Check): CheckOutcome<T>
    requires env.Valid() && !Answered(env, c)
  {
    if Decisive(env, c).Err? then CheckFailed(Decisive(env, c).error) else IndexPanic
  }

  ghost function VotesAt(env: RoundEnv, c: Check): seq<Vote>
    requires env.Valid()
  {
    if Decisive(env, c).Ok? then Decisive(env, c).value else []
  }

  /** The artifact reports the deciding votes, converted against the check's own previous artifact. */
  ghost predicate CheckStep(
    underTest: set<string>, env: RoundEnv, c: Check, prev: Option<Artifact>, cur: Option<Artifact>)
    requires env.Valid()
  {
    && VotesAt(env, c) != [] && cur.Some?
    && Reports(VotesAt(env, c), cur.value.result)
    && cur.value == Convert(underTest, prev, cur.value.result, env.Env(c).seconds)
  }

  /** A complete round: every check answered and was converted. */
  ghost predicate RoundStep(underTest: set<string>, env: RoundEnv, prev: HealthCheckResult, cur: HealthCheckResult)
    requires env.Valid()
  {
    && env.dialError.None? && cur.Complete()
    && forall c: Check :: CheckStep(underTest, env, c, prev.Get(c), cur.Get(c))
  }

  // ---------------------------------------------------------------- the code

  method RunCheck(underTest: set<string>, env: RoundEnv, c: Check, prev: Option<Artifact>)
    returns (r: CheckOutcome<Artifact>)
    requires env.Valid()
    ensures r.Checked? <==> Answered(env, c)
    ensures r.Checked? ==> CheckStep(underTest, env, c, prev, Some(r.value))
    ensures !r.Checked? ==> r == Unanswered(env, c)
  {
    var answer := GetBlockConsensus(env.Env(c).polls, MaxAttempts(c));
    match answer
    case CheckFailed(e) => r := CheckFailed(e);
    case IndexPanic => r := IndexPanic;
    case Checked(result) =>
      var artifact := ConvertResultToArtifact(underTest, prev, result, env.Env(c).seconds);
      r := Checked(artifact);
  }

  /** The first check, in running order, that has no answer: its error or panic is the round's. */
  ghost predicate FirstUnanswered(env: RoundEnv, c: Check)
    requires env.Valid()
  {
    && !Answered(env, c)
    && (c.FinalizedEl? || c.LatestCl? || c.FinalizedCl? ==> Answered(env, LatestEl))
    && (c.LatestCl? || c.FinalizedCl? ==> Answered(env, FinalizedEl))
    && (c.FinalizedCl? ==> Answered(env, LatestCl))
  }

  /** A round that breaks off: the dial error, or the error or panic of the first check without an answer. */
  ghost predicate RoundFails(env: RoundEnv, r: CheckOutcome<HealthCheckResult>)
    requires env.Valid()
  {
    if env.dialError.Some? then r == CheckFailed(env.dialError.value)
    else exists c: Check :: FirstUnanswered(env, c) && r == Unanswered(env, c)
  }

  method RunAllChecks(underTest: set<string>, env: RoundEnv, prev: HealthCheckResult)
    returns (r: CheckOutcome<HealthCheckResult>)
    requires env.Valid()
    ensures r.Checked? ==> RoundStep(underTest, env, prev, r.value)
    ensures !r.Checked? ==> RoundFails(env, r)
  {
    if env.dialError.Some? {
      return CheckFailed(env.dialError.value);
    }
    var el := RunCheck(underTest, env, LatestEl, prev.latestEl);
    if !el.Checked? {
      assert FirstUnanswered(env, LatestEl);
      return Abort(el);
    }
    var finalEl := RunCheck(underTest, env, FinalizedEl, prev.finalizedEl);
    if !finalEl.Checked? {
      assert FirstUnanswered(env, FinalizedEl);
      return Abort(finalEl);
    }
    var cl := RunCheck(underTest, env, LatestCl, prev.latestCl);
    if !cl.Checked? {
      assert FirstUnanswered(env, LatestCl);
      return Abort(cl);
    }
    var finalCl := RunCheck(underTest, env, FinalizedCl, prev.finalizedCl);
    if !finalCl.Checked? {
      assert FirstUnanswered(env, FinalizedCl);
      return Abort(finalCl);
    }
    var result := HealthCheckResult(Some(el.value), Some(finalEl.value), Some(cl.value), Some(finalCl.value));
    FourSteps(underTest, env, prev, result);
    return Checked(result);
  }

  lemma FourSteps(underTest: set<string>, env: RoundEnv, prev: HealthCheckResult, cur: HealthCheckResult)
    requires env.Valid() && env.dialError.None?
    requires CheckStep(underTest, env, LatestEl, prev.latestEl, cur.latestEl)
    requires CheckStep(underTest, env, FinalizedEl, prev.finalizedEl, cur.finalizedEl)
    requires CheckStep(underTest, env, LatestCl, prev.latestCl, cur.latestCl)
    requires CheckStep(underTest, env, FinalizedCl, prev.finalizedCl, cur.finalizedCl)
    ensures RoundStep(underTest, env, prev, cur)
  {
    forall c: Check
      ensures CheckStep(underTest, env, c, prev.Get(c), cur.Get(c))
    {
      match c
      case LatestEl =>
      case FinalizedEl =>
      case LatestCl =>
      case FinalizedCl =>
    }
  }

  function Abort(r: CheckOutcome<Artifact>): CheckOutcome<HealthCheckResult>
    requires !r.Checked?
  {
    if r.IndexPanic? then IndexPanic else CheckFailed(r.error)
  }

  predicate AllChecksPassed(checks: HealthCheckResult)
    requires checks.Complete()
  {
    && |checks.latestEl.value.result.failingBlock| == 0
    && |checks.latestEl.value.result.failingHash| == 0
    && |checks.finalizedEl.value.result.failingBlock| == 0
    && |checks.finalizedEl.value.result.failingHash| == 0
    && |checks.latestCl.value.result.failingBlock| == 0
    && |checks.latestCl.value.result.failingHash| == 0
    && |checks.finalizedCl.value.result.failingBlock| == 0
    && |checks.finalizedCl.value.result.failingHash| == 0
  }

  ghost function Previous(history: seq<HealthCheckResult>, i: nat): HealthCheckResult
    requires i <= |history|
  {
    if i == 0 then NO_RESULT else history[i - 1]
  }

  ghost predicate StepAt(underTest: set<string>, env: nat -> RoundEnv, history: seq<HealthCheckResult>, i: nat)
    requires i < |history|
  {
    env(i).Valid() && RoundStep(underTest, env(i), Previous(history, i), history[i])
  }

  /** The rounds of a run so far, the first against no previous result. */
  ghost predicate IsRun(underTest: set<string>, env: nat -> RoundEnv, history: seq<HealthCheckResult>) {
    forall i: nat :: i < |history| ==> StepAt(underTest, env, history, i)
  }

  lemma RunPrefix(underTest: set<string>, env: nat -> RoundEnv, history: seq<HealthCheckResult>, m: nat)
    requires m <= |history| && IsRun(underTest, env, history)
    ensures IsRun(underTest, env, history[..m])
  {
    forall i: nat | i < m
      ensures StepAt(underTest, env, history[..m], i)
    {
      SameStep(underTest, env, history, history[..m], i);
    }
  }

  lemma SameStep(
    underTest: set<string>, env: nat -> RoundEnv, history: seq<HealthCheckResult>, other: seq<HealthCheckResult>,
    i: nat)
    requires i < |history| && i < |other| && IsRun(underTest, env, history)
    requires Previous(history, i) == Previous(other, i) && history[i] == other[i]
    ensures StepAt(underTest, env, other, i)
  {
    assert StepAt(underTest, env, history, i);
  }

  lemma RunExtends(
    underTest: set<string>, env: nat -> RoundEnv, history: seq<HealthCheckResult>, next: HealthCheckResult)
    requires IsRun(underTest, env, history)
    requires env(|history|).Valid() && RoundStep(underTest, env(|history|), Previous(history, |history|), next)
    ensures IsRun(underTest, env, history + [next])
  {
    var all := history + [next];
    forall i: nat | i < |all|
      ensures StepAt(underTest, env, all, i)
    {
      assert Previous(all, i) == Previous(history, i);
      if i < |history| {
        SameStep(underTest, env, history, all, i);
      }
    }
  }

  /** Rounds go on while some check fails and the grace period lasts. */
  ghost predicate GoesOn(env: nat -> RoundEnv, history: seq<HealthCheckResult>, deadline: int) {
    forall i: nat :: i < |history| ==>
      history[i].Complete() && !AllChecksPassed(history[i]) && env(i).now <= deadline
  }

  /** A run that ends with this result: earlier rounds failed within the grace period, the last one passed or
      exceeded it, and there were no more rounds than its seconds allow. */
  ghost predicate Returns(
    underTest: set<string>, env: nat -> RoundEnv, start: int, grace: int,
    history: seq<HealthCheckResult>, result: HealthCheckResult)
  {
    && IsRun(underTest, env, history)
    && history != [] && result == history[|history| - 1] && result.Complete()
    && GoesOn(env, history[..|history| - 1], start + grace)
    && (AllChecksPassed(result) || env(|history| - 1).now > start + grace)
    && (|history| > 1 ==> (|history| - 2) * SECOND <= grace)
  }

  /** A run that breaks off: the rounds so far failed within the grace period, and the next ends with `r`. */
  ghost predicate BreaksOff(
    underTest: set<string>, env: nat -> RoundEnv, start: int, grace: int, history: seq<HealthCheckResult>,
    r: CheckOutcome<HealthCheckResult>)
  {
    && IsRun(underTest, env, history) && GoesOn(env, history, start + grace)
    && env(|history|).Valid() && RoundFails(env(|history|), r)
  }

  /** `env` is what successive rounds meet; each round that does not end the loop is followed by a sleep of
      one second. */
  method RunChecks(underTest: set<string>, start: int, grace: int, env: nat -> RoundEnv)
    returns (r: CheckOutcome<HealthCheckResult>)
    requires forall i: nat :: env(i).Valid() && env(i + 1).now >= env(i).now + SECOND
    requires start <= env(0).now
    ensures r.Checked? ==> exists history :: Returns(underTest, env, start, grace, history, r.value)
    ensures !r.Checked? ==> exists history :: BreaksOff(underTest, env, start, grace, history, r)
  {
    var latestAllowable := start + grace;
    var last := NO_RESULT;
    var i: nat := 0;
    ghost var history: seq<HealthCheckResult> := [];
    while true
      invariant i == |history|
      invariant last == Previous(history, i)
      invariant IsRun(underTest, env, history)
      invariant GoesOn(env, history, latestAllowable)
      invariant env(i).now >= start + i * SECOND
      invariant i > 0 ==> env(i - 1).now <= latestAllowable && env(i - 1).now >= start + (i - 1) * SECOND
      decreases Max(0, latestAllowable - env(i).now + 2 * SECOND)
    {
      r := RunAllChecks(underTest, env(i), last);
      if !r.Checked? {
        assert BreaksOff(underTest, env, start, grace, history, r);
        return;
      }
      ghost var before := history;
      RunExtends(underTest, env, history, r.value);
      history := history + [r.value];
      assert history[..|history| - 1] == before;
      last := r.value;
      if AllChecksPassed(last) || env(i).now > latestAllowable {
        assert Returns(underTest, env, start, grace, history, r.value);
        return;
      }
      assert env(i + 1).now >= env(i).now + SECOND;
      i := i + 1;
    }
  }

  // ---------------------------------------------------------------- results

  /** A complete round passes exactly when, in each of the four checks, every client polled in the deciding
      poll reported the same block. */
  lemma PassedIffAllUnanimous(underTest: set<string>, env: RoundEnv, prev: HealthCheckResult, cur: HealthCheckResult)
    requires env.Valid() && RoundStep(underTest, env, prev, cur)
    ensures AllChecksPassed(cur) <==>
      && Unanimous(VotesAt(env, LatestEl)) && Unanimous(VotesAt(env, FinalizedEl))
      && Unanimous(VotesAt(env, LatestCl)) && Unanimous(VotesAt(env, FinalizedCl))
  {
    CheckPassedIffUnanimous(underTest, env, LatestEl, prev, cur);
    CheckPassedIffUnanimous(underTest, env, FinalizedEl, prev, cur);
    CheckPassedIffUnanimous(underTest, env, LatestCl, prev, cur);
    CheckPassedIffUnanimous(underTest, env, FinalizedCl, prev, cur);
    AllPassedIff(cur);
  }

  ghost predicate NoneFailing(a: Artifact) {
    |a.result.failingBlock| == 0 && |a.result.failingHash| == 0
  }

  lemma AllPassedIff(cur: HealthCheckResult)
    requires cur.Complete()
    ensures AllChecksPassed(cur) <==>
      && NoneFailing(cur.Get(LatestEl).value) && NoneFailing(cur.Get(FinalizedEl).value)
      && NoneFailing(cur.Get(LatestCl).value) && NoneFailing(cur.Get(FinalizedCl).value)
  {
  }

  lemma CheckPassedIffUnanimous(
    underTest: set<string>, env: RoundEnv, c: Check, prev: HealthCheckResult, cur: HealthCheckResult)
    requires env.Valid() && RoundStep(underTest, env, prev, cur)
    ensures NoneFailing(cur.Get(c).value) <==> Unanimous(VotesAt(env, c))
  {
    assert CheckStep(underTest, env, c, prev.Get(c), cur.Get(c));
    PassIffUnanimous(VotesAt(env, c), cur.Get(c).value.result);
  }

  /** One check's rounds within a run. */
  ghost function RoundsOf(env: nat -> RoundEnv, history: seq<HealthCheckResult>, c: Check): (rounds: seq<Round>)
    requires forall h :: h in history ==> h.Get(c).Some?
  {
    seq(|history|, i requires 0 <= i < |history| && history[i].Get(c).Some? =>
      Round(history[i].Get(c).value.result, env(i).Env(c).seconds))
  }

  lemma RunIsComplete(underTest: set<string>, env: nat -> RoundEnv, history: seq<HealthCheckResult>, c: Check)
    requires IsRun(underTest, env, history)
    ensures forall h :: h in history ==> h.Get(c).Some?
  {
    forall h | h in history
      ensures h.Get(c).Some?
    {
      var i: nat :| i < |history| && history[i] == h;
      StepConverts(underTest, env, history, c, i);
    }
  }

  /** Each of the four artifacts is the fold of its own rounds, so the ledger results hold of every run. */
  lemma {:induction false} ArtifactsAreFolds(
    underTest: set<string>, env: nat -> RoundEnv, history: seq<HealthCheckResult>, c: Check)
    requires history != [] && IsRun(underTest, env, history)
    ensures forall h :: h in history ==> h.Get(c).Some?
    ensures history[|history| - 1].Get(c) == Some(ArtifactAfter(underTest, RoundsOf(env, history, c)))
  {
    hide StepAt, RoundStep, CheckStep, Convert, IsRun;
    RunIsComplete(underTest, env, history, c);
    var n := |history| - 1;
    var rounds := RoundsOf(env, history, c);
    StepConverts(underTest, env, history, c, n);
    if n > 0 {
      RunPrefix(underTest, env, history, n);
      ArtifactsAreFolds(underTest, env, history[..n], c);
      assert rounds[..n] == RoundsOf(env, history[..n], c);
    }
  }

  lemma StepConverts(underTest: set<string>, env: nat -> RoundEnv, history: seq<HealthCheckResult>, c: Check, i: nat)
    requires i < |history| && IsRun(underTest, env, history)
    ensures history[i].Get(c).Some?
    ensures var a := history[i].Get(c).value;
      a == Convert(underTest, Previous(history, i).Get(c), a.result, env(i).Env(c).seconds)
  {
    assert StepAt(underTest, env, history, i);
    assert CheckStep(underTest, env(i), c, Previous(history, i).Get(c), history[i].Get(c));
  }

  /** When a run ends with every check passing, the returned ledger of each check lists exactly the clients
      that failed that check in an earlier round, and its entries date from their first recovery. */
  lemma PassingRun(
    underTest: set<string>, env: nat -> RoundEnv, history: seq<HealthCheckResult>, c: Check, client: string)
    requires history != [] && IsRun(underTest, env, history)
    requires history[|history| - 1].Complete() && AllChecksPassed(history[|history| - 1])
    ensures forall h :: h in history ==> h.Get(c).Some?
    ensures var rounds := RoundsOf(env, history, c);
      var ledger := history[|history| - 1].Get(c).value.recoverySeconds;
      && (client in ledger <==> exists i :: 0 <= i < |rounds| - 1 && Failing(rounds[i].result, client))
      && (forall i :: FirstLeavesAt(rounds, client, i) ==> client in ledger && ledger[client] == rounds[i].seconds)
  {
    ArtifactsAreFolds(underTest, env, history, c);
    var rounds := RoundsOf(env, history, c);
    var last := rounds[|rounds| - 1].result;
    assert Passing(last) by {
      match c
      case LatestEl =>
      case FinalizedEl =>
      case LatestCl =>
      case FinalizedCl =>
    }
    PassingLedgerIsEveryFailure(underTest, rounds, client);
    LedgerIsExact(underTest, rounds, client);
  }
}
