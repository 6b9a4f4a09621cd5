/** TestExecutor of pkg/test_executor/executor.go: the steps of a test plan run against a clock. */
module TestExecution {
  import opened Common
  import opened FaultSessions
  import opened PlanProofs
  import opened PlanRuns

  /** The clock in nanoseconds, and the replies still to come. The tape is finite: a wait that outlasts it is
      one that is still going on. */
  class Environment {
    var now: int
    var tape: seq<Reply>

    constructor (now: int, tape: seq<Reply>)
      ensures this.now == now && this.tape == tape
    {
      this.now, this.tape := now, tape;
    }

    method Sleep(duration: int)
      modifies this`now
      ensures now == old(now) + Max(duration, 0)
    {
      now := now + Max(duration, 0);
    }

    method Next() returns (o: Observation)
      requires tape != []
      modifies this
      ensures tape == old(tape)[1..] && now == old(now) + old(tape)[0].latency
      ensures o == old(tape)[0].observation
    {
      o, now, tape := tape[0].observation, now + tape[0].latency, tape[1..];
    }
  }

  ghost function WorldOf(env: Environment): World
    reads env
  {
    World(env.now, env.tape)
  }

  ghost function ViewOf(s: FaultSession): View
    reads s
  {
    View(s.State(), s.PodKill(), s.testEndTime)
  }

  ghost function ViewsOf(sessions: seq<FaultSession>): (views: seq<View>)
    reads sessions
    ensures |views| == |sessions|
    ensures forall i :: 0 <= i < |sessions| ==> views[i] == ViewOf(sessions[i])
  {
    seq(|sessions|, i requires 0 <= i < |sessions| reads sessions => ViewOf(sessions[i]))
  }

  /** The session has been seen completed at or after its end time. */
  ghost predicate Ended(s: FaultSession, now: int)
    reads s
  {
    s.testEndTime.Some? && s.lastStatus == Some(Completed) && s.testEndTime.value <= s.polledAt <= now
  }

  // ---------------------------------------------------------------- waiting for one fault

  /** One call of GetStatus, answered by the next reply. */
  method PollOnce(session: FaultSession, env: Environment) returns (r: StatusOutcome)
    requires env.tape != []
    modifies session, env
    ensures env.tape == old(env.tape)[1..] && env.now == old(env.now) + old(env.tape)[0].latency
    ensures (session.State(), r) == Poll(old(session.State()), session.PodKill(), old(env.tape)[0].observation)
    ensures r.Reached? ==> session.lastStatus == Some(r.status) && session.polledAt == env.now
    ensures !r.Reached? ==> session.lastStatus == old(session.lastStatus)
    ensures session.seenInjected <==> old(session.seenInjected) || (r.Reached? && r.status != Starting)
  {
    var observation := env.Next();
    ghost var reported;
    r, reported := session.GetStatus(observation, env.now);
  }

  /** PollOnce for callers that only look at the status. */
  method PollStatus(session: FaultSession, env: Environment) returns (r: StatusOutcome)
    requires env.tape != []
    modifies session, env
    ensures env.tape == old(env.tape)[1..] && env.now == old(env.now) + old(env.tape)[0].latency
    ensures r.Reached? ==> session.lastStatus == Some(r.status) && session.polledAt == env.now
    ensures !r.Reached? ==> session.lastStatus == old(session.lastStatus)
    ensures session.seenInjected <==> old(session.seenInjected) || (r.Reached? && r.status != Starting)
    ensures (ViewOf(session), WorldOf(env), r) == Polled(old(ViewOf(session)), old(WorldOf(env)))
  {
    r := PollOnce(session, env);
  }

  /** Polls every 250 ms until the fault is injected, for ten seconds at most, five if no target was found. So
      it makes at most 41 polls, gives up only after that time, and only on a fault that it has never seen
      past Starting. */
  method WaitForInjectionCompleted(session: FaultSession, env: Environment) returns (r: Outcome)
    modifies session, env
    ensures Waited(r, ViewOf(session), WorldOf(env))
      == InjectionWait(old(ViewOf(session)), old(WorldOf(env)), old(env.now))
    ensures env.now >= old(env.now) && |env.tape| <= |old(env.tape)| <= |env.tape| + 41
    ensures r == Unfinished ==> |old(env.tape)| <= 40
    ensures r == Done ==> session.lastStatus.Some? && session.lastStatus != Some(Starting)
    ensures session.seenInjected <==> old(session.seenInjected) || r == Done
    ensures r.Failed? ==> r == Failed(STILL_STARTING) || r == Failed(NO_TARGETS)
    ensures r == Failed(STILL_STARTING) ==> env.now > old(env.now) + 10 * SECOND
    ensures r == Failed(NO_TARGETS) ==>
      && env.now > old(env.now) + 5 * SECOND
      && session.lastStatus == Some(Starting) && !session.targetSelectionCompleted
    ensures r != NilPanic
  {
    hide Poll;
    var timeoutAt := env.now + 10 * SECOND;
    var targetingGracePeriod := env.now + 5 * SECOND;
    ghost var polls := 0;
    while true
      invariant polls == |old(env.tape)| - |env.tape| && 0 <= polls <= 41
      invariant env.now >= old(env.now) + polls * (250 * MILLISECOND)
      invariant session.seenInjected == old(session.seenInjected)
      invariant InjectionWait(ViewOf(session), WorldOf(env), old(env.now))
        == InjectionWait(old(ViewOf(session)), old(WorldOf(env)), old(env.now))
      decreases |env.tape|
    {
      if env.now > timeoutAt {
        return Failed(STILL_STARTING);
      }
      if env.tape == [] {
        return Unfinished;
      }
      var status := PollStatus(session, env);
      polls := polls + 1;
      match status {
        case InvalidState => return StatePanic;
        case StatusError(_) =>
        case Reached(InProgress) => return Done;
        case Reached(Stopping) => return Done;
        case Reached(Completed) => return Done;
        case Reached(Starting) =>
          if !session.targetSelectionCompleted && env.now > targetingGracePeriod {
            return Failed(NO_TARGETS);
          }
      }
      env.Sleep(250 * MILLISECOND);
    }
  }

  /** The clock and the tape after k replies with a sleep of ten seconds after each. */
  ghost predicate AfterPolls(start: int, replies: seq<Reply>, k: nat, now: int, tape: seq<Reply>) {
    k <= |replies| && tape == replies[k..] && now == start + Latency(replies, k) + k * (10 * SECOND)
  }

  lemma OneMorePoll(start: int, replies: seq<Reply>, k: nat, now: int, tape: seq<Reply>)
    requires AfterPolls(start, replies, k, now, tape) && tape != []
    ensures AfterPolls(start, replies, k + 1, now + tape[0].latency + 10 * SECOND, tape[1..])
  {
  }

  /** Polls every ten seconds until the fault has recovered. A fault seen starting again is an error. */
  method WaitForFaultRecovery(session: FaultSession, env: Environment) returns (r: Outcome, ghost k: nat)
    modifies session, env
    ensures Waited(r, ViewOf(session), WorldOf(env)) == RecoveryWait(old(ViewOf(session)), old(WorldOf(env)))
    ensures env.now >= old(env.now) && |env.tape| == |old(env.tape)| - k
    ensures r == Done ==>
      && session.lastStatus == Some(Completed) && old(env.now) <= session.polledAt <= env.now
      && 1 <= k && AfterPolls(old(env.now), old(env.tape), k, env.now + 10 * SECOND, env.tape)
    ensures old(session.seenInjected) ==> session.seenInjected
    ensures r != NilPanic
  {
    hide Poll, Polled, RecoveryWait;
    k := 0;
    while true
      invariant AfterPolls(old(env.now), old(env.tape), k, env.now, env.tape)
      invariant old(session.seenInjected) ==> session.seenInjected
      invariant RecoveryWait(ViewOf(session), WorldOf(env))
        == RecoveryWait(old(ViewOf(session)), old(WorldOf(env)))
      decreases |env.tape|
    {
      RecoveryRound(ViewOf(session), WorldOf(env));
      if env.tape == [] {
        return Unfinished, k;
      }
      OneMorePoll(old(env.now), old(env.tape), k, env.now, env.tape);
      var status := PollStatus(session, env);
      k := k + 1;
      match status {
        case InvalidState => return StatePanic, k;
        case StatusError(e) => return Failed(e), k;
        case Reached(Completed) => return Done, k;
        case Reached(Starting) => return Failed("unknown chaos session state"), k;
        case Reached(InProgress) => env.Sleep(10 * SECOND);
        case Reached(Stopping) => env.Sleep(10 * SECOND);
      }
    }
  }

  /** Sleeps until the fault's end time, then waits for its recovery. */
  method WaitForOneFault(session: FaultSession, env: Environment) returns (r: Outcome, ghost k: nat)
    modifies session, env
    ensures Waited(r, ViewOf(session), WorldOf(env)) == FaultWait(old(ViewOf(session)), old(WorldOf(env)))
    ensures env.now >= old(env.now) && k <= |old(env.tape)| && |env.tape| == |old(env.tape)| - k
    ensures r == NilPanic <==> session.testEndTime.None?
    ensures old(session.seenInjected) ==> session.seenInjected
    ensures r == Done ==>
      && Ended(session, env.now) && 1 <= k && env.tape == old(env.tape)[k..]
      && env.now == Max(old(env.now), session.testEndTime.value) + Latency(old(env.tape), k) + (k - 1) * (10 * SECOND)
  {
    hide Poll, RecoveryWait, Latency;
    if session.testEndTime.None? {
      return NilPanic, 0;
    }
    if env.now < session.testEndTime.value {
      env.Sleep(session.testEndTime.value - env.now);
    }
    r, k := WaitForFaultRecovery(session, env);
  }

  // ---------------------------------------------------------------- the executor

  class TestExecutor {
    const testName: string
    const planSteps: seq<Step>
    var faultSessions: seq<FaultSession>
    var planCompleted: bool

    constructor (testName: string, planSteps: seq<Step>)
      ensures this.planSteps == planSteps && faultSessions == [] && !planCompleted
    {
      this.testName, this.planSteps := testName, planSteps;
      faultSessions, planCompleted := [], false;
    }

    /** Sessions are separate objects. */
    ghost predicate Valid()
      reads this
    {
      NoDuplicates(faultSessions)
    }

    ghost predicate AllEnded(now: int)
      reads this, faultSessions
    {
      forall s :: s in faultSessions ==> Ended(s, now)
    }

    /** The executor as its steps see it. */
    ghost function RunOf(env: Environment): Run
      reads this, faultSessions, env
    {
      Run(WorldOf(env), ViewsOf(faultSessions))
    }

    /** Waits for one fault; the other sessions stay as they are. */
    method WaitForFault(i: nat, env: Environment) returns (r: Outcome, ghost k: nat)
      requires Valid() && i < |faultSessions|
      modifies env, faultSessions[i]
      ensures var f := FaultWait(old(ViewOf(faultSessions[i])), old(WorldOf(env)));
        r == f.outcome && RunOf(env) == Run(f.world, old(ViewsOf(faultSessions))[i := f.view])
      ensures env.now >= old(env.now) && k <= |old(env.tape)| && |env.tape| == |old(env.tape)| - k
      ensures r == NilPanic <==> faultSessions[i].testEndTime.None?
      ensures forall j :: 0 <= j < |faultSessions| && old(faultSessions[j].seenInjected) ==>
        faultSessions[j].seenInjected
      ensures forall j :: 0 <= j < |faultSessions| && j != i && old(Ended(faultSessions[j], env.now)) ==>
        Ended(faultSessions[j], env.now)
      ensures r == Done ==>
        && Ended(faultSessions[i], env.now) && 1 <= k && env.tape == old(env.tape)[k..]
        && env.now == Max(old(env.now), faultSessions[i].testEndTime.value)
             + Latency(old(env.tape), k) + (k - 1) * (10 * SECOND)
    {
      hide Poll, FaultWait, RecoveryWait, Latency;
      r, k := WaitForOneFault(faultSessions[i], env);
    }

    /** Waits for every fault in turn. On success all have ended; the sleeps alone take the clock to the latest
        end time, and only polling takes it further. */
    method RunWaitForFaultCompletion(env: Environment) returns (r: Outcome, ghost k: nat)
      requires Valid()
      modifies env, faultSessions
      ensures (r, RunOf(env)) == FaultsWait(old(RunOf(env)), 0)
      ensures env.now >= old(env.now) && |env.tape| == |old(env.tape)| - k
      ensures r == Done ==> AllEnded(env.now)
      ensures r == Done ==> InBudget(old(env.now), ViewsOf(faultSessions), old(env.tape), k, env.now)
      ensures r == NilPanic ==> exists s :: s in faultSessions && s.testEndTime.None?
      ensures forall s :: s in faultSessions && old(s.seenInjected) ==> s.seenInjected
    {
      hide Poll, FaultWait, FaultsWait, RecoveryWait, InBudget, Ended;
      k := 0;
      for i := 0 to |faultSessions|
        invariant env.now >= old(env.now) && |env.tape| == |old(env.tape)| - k
        invariant forall j :: 0 <= j < i ==> Ended(faultSessions[j], env.now)
        invariant forall j :: 0 <= j < |faultSessions| && old(faultSessions[j].seenInjected) ==>
          faultSessions[j].seenInjected
        invariant FaultsWait(RunOf(env), i) == FaultsWait(old(RunOf(env)), 0)
      {
        ghost var polls := 0;
        FaultsWaitStep(RunOf(env), i);
        r, polls := WaitForFault(i, env);
        k := k + polls;
        if r != Done {
          return r, k;
        }
      }
      FaultsWaitStep(RunOf(env), |faultSessions|);
      FaultsInBudget(old(RunOf(env)));
      r := Done;
    }

    /** The session is kept even if the wait for its injection fails; success means that its fault was seen
        past Starting. */
    method RunInjectFaultStep(env: Environment, start: Result<Fault, string>) returns (r: Outcome)
      requires Valid()
      modifies this`faultSessions, env
      ensures (r, RunOf(env)) == StepRun(old(RunOf(env)), InjectFault(start))
      ensures Valid() && env.now >= old(env.now) && |env.tape| <= |old(env.tape)|
      ensures start.Err? ==> r == Failed(start.error) && faultSessions == old(faultSessions)
      ensures start.Ok? ==>
        && |faultSessions| == |old(faultSessions)| + 1 && old(faultSessions) <= faultSessions
        && fresh(faultSessions[|old(faultSessions)|])
        && (faultSessions[|old(faultSessions)|].seenInjected <==> r == Done)
        && faultSessions[|old(faultSessions)|].testEndTime
             == (if start.value.duration.Some? then Some(old(env.now) + start.value.duration.value) else None)
    {
      hide Poll, InjectionWait;
      if start.Err? {
        return Failed(start.error);
      }
      var fault := start.value;
      var session := new FaultSession(fault.faultType, fault.action, env.now, fault.duration);
      ghost var before := ViewsOf(faultSessions);
      assert ViewOf(session) == Started(fault, env.now);
      faultSessions := faultSessions + [session];
      r := WaitForInjectionCompleted(session, env);
      assert ViewsOf(faultSessions) == before + [ViewOf(session)];
    }

    /** One step of the plan: the switch in the loop. */
    method RunStep(env: Environment, step: Step) returns (r: Outcome)
      requires Valid()
      modifies this`faultSessions, env, faultSessions
      ensures (r, RunOf(env)) == StepRun(old(RunOf(env)), step)
      ensures Valid() && old(faultSessions) <= faultSessions
      ensures forall k :: |old(faultSessions)| <= k < |faultSessions| ==> fresh(faultSessions[k])
      ensures r == Done ==> |faultSessions| == |old(faultSessions)| + if step.InjectFault? then 1 else 0
      ensures r == Done ==> forall k :: 0 <= k < |faultSessions| ==>
        (k < |old(faultSessions)| ==> old(faultSessions[k].seenInjected)) ==> faultSessions[k].seenInjected
      ensures r == Done && step == WaitForFaultCompletion ==> AllEnded(env.now)
    {
      hide Poll, StepRun, FaultsWait, FaultWait, RecoveryWait, InjectionWait, InBudget, LatestEnd, Ended;
      StepDecided(RunOf(env), step);
      match step {
        case InjectFault(start) =>
          r := RunInjectFaultStep(env, start);
        case WaitForFaultCompletion =>
          ghost var polls;
          r, polls := RunWaitForFaultCompletion(env);
        case WaitForDuration(amount) =>
          env.Sleep(amount);
          r := Done;
        case Malformed(e) =>
          r := Failed(e);
      }
    }

    /** Runs the plan once. Success marks it completed, and means that every fault it injected was seen past
        Starting; a plan that ends with a wait for its faults is marked completed only if every fault injected by
        this executor has ended. */
    method RunTestPlan(env: Environment) returns (r: Outcome)
      requires Valid()
      modifies this, env, faultSessions
      ensures Valid()
      ensures !old(planCompleted) ==> (r, RunOf(env)) == PlanRun(old(RunOf(env)), planSteps)
      ensures r == Done ==> env.now >= old(env.now) + Durations(planSteps)
      ensures planCompleted <==> old(planCompleted) || r == Done
      ensures old(planCompleted) ==> r != Done && faultSessions == old(faultSessions) && env.now == old(env.now)
      ensures old(faultSessions) <= faultSessions
      ensures r == Done && planSteps != [] && planSteps[|planSteps| - 1] == WaitForFaultCompletion ==> AllEnded(env.now)
      ensures r == Done ==> |faultSessions| == |old(faultSessions)| + Injections(planSteps)
      ensures r == Done ==> forall k :: |old(faultSessions)| <= k < |faultSessions| ==> faultSessions[k].seenInjected
    {
      hide Poll, PlanRun, StepRun, FaultsWait, FaultWait, RecoveryWait, InjectionWait, InBudget, LatestEnd, Ended;
      if planCompleted {
        return Failed("test executor has already been run");
      }
      assert planSteps[0..] == planSteps;
      for i := 0 to |planSteps|
        invariant PlanRun(RunOf(env), planSteps[i..]) == PlanRun(old(RunOf(env)), planSteps)
        invariant Valid() && !planCompleted && old(faultSessions) <= faultSessions
        invariant forall k :: |old(faultSessions)| <= k < |faultSessions| ==>
          fresh(faultSessions[k]) && faultSessions[k].seenInjected
        invariant |faultSessions| == |old(faultSessions)| + Injections(planSteps[..i])
        invariant i > 0 && planSteps[i - 1] == WaitForFaultCompletion ==> AllEnded(env.now)
      {
        assert planSteps[..i + 1][..i] == planSteps[..i];
        assert planSteps[i..][0] == planSteps[i] && planSteps[i..][1..] == planSteps[i + 1..];
        PlanRunStep(RunOf(env), planSteps[i..]);
        r := RunStep(env, planSteps[i]);
        if r != Done {
          return;
        }
      }
      assert planSteps[..|planSteps|] == planSteps;
      planCompleted := true;
      r := Done;
      PlanRunStep(RunOf(env), []);
      PlanTakesTime(old(RunOf(env)), planSteps);
    }

    /** The pods of all sessions, each name once; an error before the plan has been completed. */
    method GetPodsUnderTest() returns (r: Result<seq<PodUnderTest>, string>)
      ensures r.Ok? <==> planCompleted
      ensures r.Ok? ==> r.value == FirstAppearances(AllPods(faultSessions))
    {
      if !planCompleted {
        return Err("test has not been executed yet");
      }
      var merged: map<string, PodUnderTest> := map[];
      var pods: seq<PodUnderTest> := [];
      for i := 0 to |faultSessions|
        invariant pods == FirstAppearances(AllPods(faultSessions[..i]))
        invariant merged.Keys == Names(AllPods(faultSessions[..i]))
      {
        assert faultSessions[..i + 1][..i] == faultSessions[..i];
        pods, merged := MergePods(pods, merged, faultSessions[i].podsUnderTest, AllPods(faultSessions[..i]));
      }
      assert faultSessions[..|faultSessions|] == faultSessions;
      return Ok(pods);
    }
  }

  /** A pod met again raises the flags of its entry in the lookup map. */
  function MergeFlags(m: map<string, PodUnderTest>, pod: PodUnderTest): (r: map<string, PodUnderTest>)
    requires pod.name in m
    ensures r.Keys == m.Keys
    ensures r[pod.name].expectDeath <==> m[pod.name].expectDeath || pod.expectDeath
    ensures r[pod.name].touchedByFault <==> m[pod.name].touchedByFault || pod.touchedByFault
  {
    var val := m[pod.name];
    m[pod.name := val.(expectDeath := val.expectDeath || pod.expectDeath,
                       touchedByFault := val.touchedByFault || pod.touchedByFault)]
  }

  /** The loop over the pods of one session. Flags are merged into the lookup map only. */
  method MergePods(
    pods: seq<PodUnderTest>, merged: map<string, PodUnderTest>, found: seq<PodUnderTest>,
    ghost before: seq<PodUnderTest>)
    returns (pods': seq<PodUnderTest>, merged': map<string, PodUnderTest>)
    requires pods == FirstAppearances(before) && merged.Keys == Names(before)
    ensures pods' == FirstAppearances(before + found) && merged'.Keys == Names(before + found)
  {
    pods', merged' := pods, merged;
    ghost var seen := before;
    for j := 0 to |found|
      invariant seen == before + found[..j]
      invariant pods' == FirstAppearances(seen) && merged'.Keys == Names(seen)
    {
      var pod := found[j];
      FirstAppearancesSnoc(seen, pod);
      if pod.name !in merged' {
        merged' := merged'[pod.name := pod];
        pods' := pods' + [pod];
      } else {
        merged' := MergeFlags(merged', pod);
      }
      seen := seen + [pod];
    }
    assert found[..|found|] == found;
  }

  function Injections(steps: seq<Step>): nat {
    if steps == [] then 0
    else Injections(steps[..|steps| - 1]) + if steps[|steps| - 1].InjectFault? then 1 else 0
  }

  // ---------------------------------------------------------------- pods under test

  function AllPods(sessions: seq<FaultSession>): seq<PodUnderTest>
    reads sessions
  {
    if sessions == [] then []
    else AllPods(sessions[..|sessions| - 1]) + sessions[|sessions| - 1].podsUnderTest
  }

  ghost function Names(pods: seq<PodUnderTest>): set<string> {
    set p | p in pods :: p.name
  }

  /** The pods whose name has not come up before, in order. */
  ghost function FirstAppearances(pods: seq<PodUnderTest>): seq<PodUnderTest> {
    if pods == [] then []
    else
      var before, last := pods[..|pods| - 1], pods[|pods| - 1];
      FirstAppearances(before) + if last.name in Names(before) then [] else [last]
  }

  lemma FirstAppearancesSnoc(pods: seq<PodUnderTest>, p: PodUnderTest)
    ensures FirstAppearances(pods + [p]) == FirstAppearances(pods) + if p.name in Names(pods) then [] else [p]
    ensures Names(pods + [p]) == Names(pods) + {p.name}
  {
    assert (pods + [p])[..|pods|] == pods;
  }

  /** Where a name comes up first. */
  ghost function IndexOf(pods: seq<PodUnderTest>, name: string): (i: nat)
    requires name in Names(pods)
    ensures i < |pods| && pods[i].name == name
    ensures forall j :: 0 <= j < i ==> pods[j].name != name
  {
    if pods[0].name == name then 0
    else
      assert pods == [pods[0]] + pods[1..];
      1 + IndexOf(pods[1..], name)
  }

  lemma IndexOfPrefix(before: seq<PodUnderTest>, last: PodUnderTest, name: string)
    requires name in Names(before)
    ensures name in Names(before + [last]) && IndexOf(before + [last], name) == IndexOf(before, name)
  {
    var i := IndexOf(before, name);
    assert (before + [last])[i] == before[i];
  }

  /** Every name is returned once, as the pod that carried it first, in the order of first appearances. */
  lemma {:induction false} FirstAppearancesExact(pods: seq<PodUnderTest>)
    ensures Names(FirstAppearances(pods)) == Names(pods)
    ensures forall k :: 0 <= k < |FirstAppearances(pods)| ==> IsFirst(pods, FirstAppearances(pods)[k])
    ensures forall k, l :: 0 <= k < l < |FirstAppearances(pods)| ==>
      Before(pods, FirstAppearances(pods)[k], FirstAppearances(pods)[l])
  {
    if pods != [] {
      var before, last := pods[..|pods| - 1], pods[|pods| - 1];
      FirstAppearancesExact(before);
      assert pods == before + [last];
      FirstAppearancesSnoc(before, last);
      var r0 := FirstAppearances(before);
      forall k | 0 <= k < |r0|
        ensures IsFirst(pods, r0[k]) && IndexOf(pods, r0[k].name) < |before|
      {
        assert IsFirst(before, r0[k]);
        IndexOfPrefix(before, last, r0[k].name);
      }
      forall k, l | 0 <= k < l < |r0|
        ensures Before(pods, r0[k], r0[l])
      {
        assert Before(before, r0[k], r0[l]);
        IndexOfPrefix(before, last, r0[k].name);
        IndexOfPrefix(before, last, r0[l].name);
      }
    }
  }

  /** The pod is the first of its name. */
  ghost predicate IsFirst(pods: seq<PodUnderTest>, p: PodUnderTest) {
    p.name in Names(pods) && pods[IndexOf(pods, p.name)] == p
  }

  /** The name of p comes up before that of q. */
  ghost predicate Before(pods: seq<PodUnderTest>, p: PodUnderTest, q: PodUnderTest) {
    p.name in Names(pods) && q.name in Names(pods) && IndexOf(pods, p.name) < IndexOf(pods, q.name)
  }

  /** The flags that a loop over several sessions merges never reach the returned pods: a returned pod expects
      death whenever any session expects it to, exactly if no later session adds an expectation to a pod that
      an earlier one did not expect to die. */
  lemma FlagsMergedIff(pods: seq<PodUnderTest>)
    ensures (forall p :: p in pods && p.expectDeath ==>
              exists r :: r in FirstAppearances(pods) && r.name == p.name && r.expectDeath)
      <==> forall p :: p in pods && p.expectDeath ==> p.name in Names(pods) && pods[IndexOf(pods, p.name)].expectDeath
  {
    FirstAppearancesExact(pods);
    var r := FirstAppearances(pods);
    forall p | p in pods
      ensures p.name in Names(pods) && pods[IndexOf(pods, p.name)] in r
      ensures forall q :: q in r && q.name == p.name ==> q == pods[IndexOf(pods, p.name)]
    {
      assert p.name in Names(r);
    }
  }

  /** For example, a pod first slowed down and then killed is returned as one that should survive. */
  lemma KilledPodExpectedAlive(labels: map<string, string>)
    ensures FirstAppearances([PodUnderTest("el-1", labels, false, false), PodUnderTest("el-1", labels, true, false)])
      == [PodUnderTest("el-1", labels, false, false)]
  {
    var a, b := PodUnderTest("el-1", labels, false, false), PodUnderTest("el-1", labels, true, false);
    assert [a, b] == [] + [a] + [b];
    FirstAppearancesSnoc([], a);
    FirstAppearancesSnoc([] + [a], b);
  }
}
