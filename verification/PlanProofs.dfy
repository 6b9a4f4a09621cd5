/** When the waits and the plans of the executor succeed, and how long they take. */
module PlanProofs {
  import opened Common
  import opened FaultSessions
  import opened SessionProofs
  import opened PlanRuns

  /** The time spent in `k` replies. */
  ghost function Latency(replies: seq<Reply>, k: nat): nat
    requires k <= |replies|
  {
    if k == 0 then 0 else Latency(replies, k - 1) + replies[k - 1].latency
  }

  lemma {:induction false} LatencyOfRest(replies: seq<Reply>, j: nat, k: nat)
    requires j + k <= |replies|
    ensures Latency(replies, j + k) == Latency(replies, j) + Latency(replies[j..], k)
  {
    if k > 0 {
      LatencyOfRest(replies, j, k - 1);
    }
  }

  // ---------------------------------------------------------------- the polls of one wait

  function Found(replies: seq<Reply>): (polls: seq<Observation>)
    ensures |polls| == |replies| && forall i :: 0 <= i < |polls| ==> polls[i] == replies[i].observation
  {
    seq(|replies|, i requires 0 <= i < |replies| => replies[i].observation)
  }

  /** What each poll of the wait would report. */
  ghost function Statuses(v: View, replies: seq<Reply>): (statuses: seq<StatusOutcome>)
    ensures |statuses| == |replies|
    ensures forall i :: 0 <= i < |replies| ==> statuses[i] == OutcomeAt(v.state, v.podKill, Found(replies), i)
  {
    seq(|replies|, i requires 0 <= i < |replies| => OutcomeAt(v.state, v.podKill, Found(replies), i))
  }

  /** The session before the first poll, and after each. */
  ghost function Views(v: View, replies: seq<Reply>): (views: seq<View>)
    ensures |views| == |replies| + 1
    ensures forall k :: 0 <= k <= |replies| ==>
      views[k] == v.(state := After(v.state, v.podKill, Found(replies)[..k]))
  {
    seq(|replies| + 1, k requires 0 <= k <= |replies| => v.(state := After(v.state, v.podKill, Found(replies)[..k])))
  }

  lemma {:induction false} AfterCons(s: SessionState, podKill: bool, o: Observation, rest: seq<Observation>)
    ensures After(s, podKill, [o] + rest) == After(Poll(s, podKill, o).0, podKill, rest)
  {
    if rest == [] {
      assert [o] + rest == [o] && [o][..0] == [];
    } else {
      var n := |rest| - 1;
      AfterCons(s, podKill, o, rest[..n]);
      assert ([o] + rest)[..n + 1] == [o] + rest[..n];
    }
  }

  lemma AfterFirst(s: SessionState, podKill: bool, polls: seq<Observation>, k: nat)
    requires k < |polls|
    ensures After(s, podKill, polls[..k + 1]) == After(Poll(s, podKill, polls[0]).0, podKill, polls[1..][..k])
  {
    assert polls[..k + 1] == [polls[0]] + polls[1..][..k];
    AfterCons(s, podKill, polls[0], polls[1..][..k]);
  }

  /** v' and w' are what the first poll leaves. */
  ghost predicate Follows(v: View, w: World, status: StatusOutcome, v': View, w': World) {
    && w.tape != [] && w'.tape == w.tape[1..] && w'.now == w.now + w.tape[0].latency
    && Views(v, w.tape) == [v] + Views(v', w'.tape)
    && Statuses(v, w.tape) == [status] + Statuses(v', w'.tape)
  }

  /** The polls after the first are those of the session as the first left it. */
  lemma FirstPoll(v: View, w: World)
    requires w.tape != []
    ensures Follows(v, w, Polled(v, w).2, Polled(v, w).0, Polled(v, w).1)
  {
    var (v', w', status) := Polled(v, w);
    ViewsFollow(v, w.tape, v');
    StatusesFollow(v, w.tape, v', status);
  }

  lemma ViewsFollow(v: View, replies: seq<Reply>, v': View)
    requires replies != [] && v' == v.(state := Poll(v.state, v.podKill, replies[0].observation).0)
    ensures Views(v, replies) == [v] + Views(v', replies[1..])
  {
    var polls := Found(replies);
    assert polls[..0] == [] && Found(replies[1..]) == polls[1..];
    forall k | 0 <= k < |polls|
      ensures Views(v, replies)[k + 1] == Views(v', replies[1..])[k]
    {
      AfterFirst(v.state, v.podKill, polls, k);
    }
  }

  lemma StatusesFollow(v: View, replies: seq<Reply>, v': View, status: StatusOutcome)
    requires replies != [] && v' == v.(state := Poll(v.state, v.podKill, replies[0].observation).0)
    requires status == Poll(v.state, v.podKill, replies[0].observation).1
    ensures Statuses(v, replies) == [status] + Statuses(v', replies[1..])
  {
    var polls := Found(replies);
    assert polls[..0] == [] && Found(replies[1..]) == polls[1..];
    forall i | 0 <= i < |replies| - 1
      ensures Statuses(v, replies)[i + 1] == Statuses(v', replies[1..])[i]
    {
      AfterFirst(v.state, v.podKill, polls, i);
    }
  }

  lemma LatencyOfFirst(replies: seq<Reply>, k: nat)
    requires k < |replies|
    ensures Latency(replies, k + 1) == replies[0].latency + Latency(replies[1..], k)
  {
    LatencyOfRest(replies, 1, k);
    assert Latency(replies, 1) == Latency(replies, 0) + replies[0].latency;
  }

  /** The session and the world after some polls and sleeps. */
  ghost predicate IsAfter(v: View, w: World, polls: nat, slept: int, f: Waited) {
    && polls <= |w.tape|
    && f.view == Views(v, w.tape)[polls] && f.world.tape == w.tape[polls..]
    && f.world.now == w.now + Latency(w.tape, polls) + slept
  }

  lemma IsAfterMore(
    v: View, w: World, status: StatusOutcome, v': View, w': World, pause: nat, polls: nat, slept: int, f: Waited)
    requires Follows(v, w, status, v', w') && IsAfter(v', Slept(w', pause), polls, slept, f)
    ensures IsAfter(v, w, polls + 1, slept + pause, f)
  {
    LatencyOfFirst(w.tape, polls);
    assert w.tape[1..][polls..] == w.tape[polls + 1..];
  }

  lemma IsAfterOne(v: View, w: World, status: StatusOutcome, v': View, w': World, f: Waited)
    requires Follows(v, w, status, v', w') && f.view == v' && f.world == w'
    ensures IsAfter(v, w, 1, 0, f)
  {
    LatencyOfFirst(w.tape, 0);
    assert Views(v', w'.tape)[0] == v' by {
      assert Found(w'.tape)[..0] == [];
    }
  }

  lemma IsAfterNone(v: View, w: World, f: Waited)
    requires f.view == v && f.world == w
    ensures IsAfter(v, w, 0, 0, f)
  {
    assert Found(w.tape)[..0] == [];
  }

  // ---------------------------------------------------------------- the wait for recovery

  /** The wait for recovery polls again. */
  ghost predicate KeepsWaiting(status: StatusOutcome) {
    status == Reached(InProgress) || status == Reached(Stopping)
  }

  /** The first status that decides the wait for recovery comes after k others; there is none if k is all of them. */
  ghost predicate DecidedAt(statuses: seq<StatusOutcome>, k: nat) {
    && k <= |statuses|
    && (forall i :: 0 <= i < k ==> KeepsWaiting(statuses[i]))
    && (k < |statuses| ==> !KeepsWaiting(statuses[k]))
  }

  /** How the wait ends when it is decided after k polls. */
  ghost predicate RecoversAs(statuses: seq<StatusOutcome>, k: nat, outcome: Outcome)
    requires k <= |statuses|
  {
    && (outcome == Unfinished <==> k == |statuses|)
    && (outcome == Done <==> k < |statuses| && statuses[k] == Reached(Completed))
    && (outcome == StatePanic <==> k < |statuses| && statuses[k] == InvalidState)
    && (outcome.Failed? <==> k < |statuses| && (statuses[k].StatusError? || statuses[k] == Reached(Starting)))
    && (k < |statuses| && statuses[k].StatusError? ==> outcome == Failed(statuses[k].message))
  }

  lemma RecoveryRound(v: View, w: World)
    ensures RecoveryWait(v, w) ==
      if w.tape == [] then Waited(Unfinished, v, w)
      else
        var (v', w', status) := Polled(v, w);
        match status
        case InvalidState => Waited(StatePanic, v', w')
        case StatusError(e) => Waited(Failed(e), v', w')
        case Reached(Completed) => Waited(Done, v', w')
        case Reached(Starting) => Waited(Failed("unknown chaos session state"), v', w')
        case Reached(_) => RecoveryWait(v', Slept(w', 10 * SECOND))
  {
  }

  /** The wait for recovery is decided by the first status that is neither InProgress nor Stopping: it succeeds exactly
      if that is Completed, fails exactly if it is an error or Starting, panics exactly with GetStatus, and goes on
      exactly if there is none. It takes the time of the polls and ten seconds after each that does not decide. */
  lemma {:induction false} RecoveryDecided(v: View, w: World) returns (k: nat)
    ensures DecidedAt(Statuses(v, w.tape), k)
    ensures RecoversAs(Statuses(v, w.tape), k, RecoveryWait(v, w).outcome)
    ensures IsAfter(v, w, if k < |w.tape| then k + 1 else k, k * 10_000_000_000, RecoveryWait(v, w))
    decreases |w.tape|
  {
    hide Poll, Polled, RecoveryWait, DecidedAt, RecoversAs, IsAfter, Statuses, Views, Latency, KeepsWaiting;
    k := 0;
    if w.tape == [] {
      RecoveryOver(v, w);
    } else {
      var status, v', w' := RecoveryStep(v, w);
      if KeepsWaiting(status) {
        var later := Slept(w', 10_000_000_000);
        var f := RecoveryWait(v', later);
        var rest := RecoveryDecided(v', later);
        DecidedLater(status, Statuses(v', w'.tape), rest, f.outcome);
        IsAfterMore(
          v, w, status, v', w', 10_000_000_000, if rest < |w'.tape| then rest + 1 else rest,
          rest * 10_000_000_000, f);
        k := rest + 1;
      } else {
        IsAfterOne(v, w, status, v', w', RecoveryWait(v, w));
        DecidedNow(status, Statuses(v', w'.tape), RecoveryWait(v, w));
      }
    }
  }

  lemma RecoveryOver(v: View, w: World)
    requires w.tape == []
    ensures DecidedAt(Statuses(v, w.tape), 0)
    ensures RecoversAs(Statuses(v, w.tape), 0, RecoveryWait(v, w).outcome)
    ensures IsAfter(v, w, 0, 0, RecoveryWait(v, w))
  {
    IsAfterNone(v, w, RecoveryWait(v, w));
  }

  /** One round of the loop. */
  lemma RecoveryStep(v: View, w: World) returns (status: StatusOutcome, v': View, w': World)
    requires w.tape != []
    ensures Follows(v, w, status, v', w')
    ensures var f := RecoveryWait(v, w);
      if KeepsWaiting(status) then f == RecoveryWait(v', Slept(w', 10_000_000_000))
      else
        && f.view == v' && f.world == w'
        && f.outcome ==
             match status
             case InvalidState => StatePanic
             case StatusError(e) => Failed(e)
             case Reached(s) => if s == Completed then Done else Failed("unknown chaos session state")
  {
    v', w', status := Polled(v, w).0, Polled(v, w).1, Polled(v, w).2;
    FirstPoll(v, w);
  }

  lemma DecidedNow(status: StatusOutcome, statuses: seq<StatusOutcome>, f: Waited)
    requires !KeepsWaiting(status)
    requires f.outcome ==
      match status
      case InvalidState => StatePanic
      case StatusError(e) => Failed(e)
      case Reached(s) => if s == Completed then Done else Failed("unknown chaos session state")
    ensures DecidedAt([status] + statuses, 0) && RecoversAs([status] + statuses, 0, f.outcome)
  {
  }

  lemma DecidedLater(status: StatusOutcome, statuses: seq<StatusOutcome>, k: nat, outcome: Outcome)
    requires KeepsWaiting(status) && DecidedAt(statuses, k) && RecoversAs(statuses, k, outcome)
    ensures DecidedAt([status] + statuses, k + 1) && RecoversAs([status] + statuses, k + 1, outcome)
  {
  }

  // ---------------------------------------------------------------- the wait for injection

  /** When poll i of the wait for injection begins: polls are a quarter of a second apart. */
  ghost function PollTime(w: World, i: nat): int
    requires i <= |w.tape|
  {
    w.now + Latency(w.tape, i) + i * 250_000_000
  }

  /** The ten seconds are over before poll i. */
  ghost predicate TooLate(w: World, start: int, i: nat)
    requires i <= |w.tape|
  {
    PollTime(w, i) > start + 10_000_000_000
  }

  /** Poll i finds the fault starting, target selection incomplete and the five seconds over. */
  ghost predicate NoTargetsAt(statuses: seq<StatusOutcome>, views: seq<View>, w: World, start: int, i: nat)
    requires i < |w.tape| == |statuses| == |views| - 1
  {
    && statuses[i] == Reached(Starting) && !views[i + 1].state.targetSelectionCompleted
    && PollTime(w, i) + w.tape[i].latency > start + 5_000_000_000
  }

  /** After poll i the wait for injection goes on: the fault is starting, or the query failed, and time is left. */
  ghost predicate GoesOn(statuses: seq<StatusOutcome>, views: seq<View>, w: World, start: int, i: nat)
    requires |w.tape| == |statuses| == |views| - 1
  {
    && i < |w.tape| && !TooLate(w, start, i)
    && (statuses[i].StatusError? || statuses[i] == Reached(Starting))
    && !NoTargetsAt(statuses, views, w, start, i)
  }

  /** How the wait for injection ends when it goes on after each of the first k polls and no longer. */
  ghost predicate InjectsAs(
    statuses: seq<StatusOutcome>, views: seq<View>, w: World, start: int, k: nat, outcome: Outcome)
    requires k <= |w.tape| == |statuses| == |views| - 1
  {
    && (forall i: nat :: i < k ==> GoesOn(statuses, views, w, start, i))
    && !GoesOn(statuses, views, w, start, k)
    && (outcome == Failed(STILL_STARTING) <==> TooLate(w, start, k))
    && (outcome == Unfinished <==> !TooLate(w, start, k) && k == |w.tape|)
    && (outcome == StatePanic <==> !TooLate(w, start, k) && k < |w.tape| && statuses[k] == InvalidState)
    && (outcome == Done <==>
          !TooLate(w, start, k) && k < |w.tape| && statuses[k].Reached? && statuses[k].status != Starting)
    && (outcome == Failed(NO_TARGETS) <==>
          !TooLate(w, start, k) && k < |w.tape| && NoTargetsAt(statuses, views, w, start, k))
  }

  /** The polls made by a wait that goes on after each of the first k and no longer. */
  ghost function PollsMade(w: World, start: int, k: nat): nat
    requires k <= |w.tape|
  {
    if k == |w.tape| || TooLate(w, start, k) then k else k + 1
  }

  /** The wait for injection goes on while the fault is starting or queries fail, ten seconds at most, five if target
      selection is incomplete. It succeeds exactly if a poll begun in time reports a status past Starting, panics
      exactly with GetStatus, fails exactly by these time limits, and goes on exactly if the replies run out before. */
  lemma {:induction false} InjectionDecided(v: View, w: World, start: int) returns (k: nat)
    ensures k <= |w.tape|
    ensures InjectsAs(Statuses(v, w.tape), Views(v, w.tape), w, start, k, InjectionWait(v, w, start).outcome)
    ensures IsAfter(v, w, PollsMade(w, start, k), k * 250_000_000, InjectionWait(v, w, start))
    decreases |w.tape|
  {
    hide Poll, Polled, InjectionWait, InjectsAs, IsAfter, Statuses, Views, PollsMade, TooLate, QuietPoll, Latency;
    k := 0;
    if w.tape == [] || w.now > start + 10 * SECOND {
      InjectionOver(v, w, start);
    } else {
      var status, v', w' := InjectionStep(v, w, start);
      if QuietPoll(v', w', status, start) {
        var later := Slept(w', 250_000_000);
        var f := InjectionWait(v', later, start);
        assert InjectionWait(v, w, start) == f;
        var rest := InjectionDecided(v', later, start);
        InjectedLater(v, w, status, v', w', later, start, rest, f.outcome);
        IsAfterLater(v, w, status, v', w', later, start, rest, f);
        k := rest + 1;
      } else {
        InjectedNow(v, w, status, v', w', start, InjectionWait(v, w, start));
      }
    }
  }

  lemma InjectionOver(v: View, w: World, start: int)
    requires w.tape == [] || w.now > start + 10 * SECOND
    ensures InjectsAs(Statuses(v, w.tape), Views(v, w.tape), w, start, 0, InjectionWait(v, w, start).outcome)
    ensures IsAfter(v, w, PollsMade(w, start, 0), 0, InjectionWait(v, w, start))
  {
    assert PollTime(w, 0) == w.now;
    IsAfterNone(v, w, InjectionWait(v, w, start));
  }

  /** One round of the loop. */
  lemma InjectionStep(v: View, w: World, start: int) returns (status: StatusOutcome, v': View, w': World)
    requires w.tape != [] && w.now <= start + 10 * SECOND
    ensures Follows(v, w, status, v', w')
    ensures var f := InjectionWait(v, w, start);
      if QuietPoll(v', w', status, start) then f == InjectionWait(v', Slept(w', 250 * MILLISECOND), start)
      else
        && f.view == v' && f.world == w'
        && f.outcome ==
             if status == InvalidState then StatePanic
             else if status == Reached(Starting) then Failed(NO_TARGETS) else Done
  {
    v', w', status := Polled(v, w).0, Polled(v, w).1, Polled(v, w).2;
    FirstPoll(v, w);
  }

  /** The first poll, with this status, does not end the wait. */
  ghost predicate QuietPoll(v': View, w': World, status: StatusOutcome, start: int) {
    || status.StatusError?
    || (status == Reached(Starting)
        && (v'.state.targetSelectionCompleted || w'.now <= start + 5_000_000_000))
  }

  lemma FirstPollIs(v: View, w: World, status: StatusOutcome, v': View, w': World, start: int)
    requires Follows(v, w, status, v', w') && !TooLate(w, start, 0)
    ensures GoesOn(Statuses(v, w.tape), Views(v, w.tape), w, start, 0) <==> QuietPoll(v', w', status, start)
    ensures Statuses(v, w.tape)[0] == status
    ensures NoTargetsAt(Statuses(v, w.tape), Views(v, w.tape), w, start, 0) <==>
      status == Reached(Starting) && !QuietPoll(v', w', status, start)
  {
    assert Views(v, w.tape)[1] == Views(v', w'.tape)[0] == v' by {
      assert Found(w'.tape)[..0] == [];
    }
    assert PollTime(w, 0) == w.now;
  }

  lemma InjectedNow(
    v: View, w: World, status: StatusOutcome, v': View, w': World, start: int, f: Waited)
    requires Follows(v, w, status, v', w') && w.now <= start + 10 * SECOND && !QuietPoll(v', w', status, start)
    requires f.view == v' && f.world == w'
    requires f.outcome ==
      if status == InvalidState then StatePanic
      else if status == Reached(Starting) then Failed(NO_TARGETS) else Done
    ensures InjectsAs(Statuses(v, w.tape), Views(v, w.tape), w, start, 0, f.outcome)
    ensures IsAfter(v, w, PollsMade(w, start, 0), 0, f)
  {
    assert PollTime(w, 0) == w.now;
    FirstPollIs(v, w, status, v', w', start);
    IsAfterOne(v, w, status, v', w', f);
  }

  lemma InjectedLater(
    v: View, w: World, status: StatusOutcome, v': View, w': World, later: World, start: int, k: nat,
    outcome: Outcome)
    requires Follows(v, w, status, v', w') && k < |w.tape| && w.now <= start + 10 * SECOND
    requires QuietPoll(v', w', status, start) && later == Slept(w', 250_000_000)
    requires InjectsAs(Statuses(v', later.tape), Views(v', later.tape), later, start, k, outcome)
    ensures InjectsAs(Statuses(v, w.tape), Views(v, w.tape), w, start, k + 1, outcome)
  {
    assert PollTime(w, 0) == w.now;
    FirstPollIs(v, w, status, v', w', start);
    InjectsLater(status, Statuses(v', later.tape), v, Views(v', later.tape), w, later, start, k, outcome);
  }

  lemma IsAfterLater(
    v: View, w: World, status: StatusOutcome, v': View, w': World, later: World, start: int, k: nat, f: Waited)
    requires Follows(v, w, status, v', w') && k < |w.tape| && later == Slept(w', 250_000_000)
    requires IsAfter(v', later, PollsMade(later, start, k), k * 250_000_000, f)
    ensures IsAfter(v, w, PollsMade(w, start, k + 1), (k + 1) * 250_000_000, f)
  {
    hide IsAfter, Statuses, Views, Latency;
    var polls := PollsMade(later, start, k);
    PollsMadeLater(w, later, start, k);
    IsAfterMore(v, w, status, v', w', 250_000_000, polls, k * 250_000_000, f);
  }

  lemma PollsMadeLater(w: World, later: World, start: int, k: nat)
    requires IsLater(w, later) && k < |w.tape|
    ensures PollsMade(w, start, k + 1) == PollsMade(later, start, k) + 1
  {
    TooLateLater(w, later, start, k);
  }

  /** The world a quarter of a second after the first poll. */
  ghost predicate IsLater(w: World, later: World) {
    w.tape != [] && later.tape == w.tape[1..] && later.now == w.now + w.tape[0].latency + 250_000_000
  }

  lemma TooLateLater(w: World, later: World, start: int, i: nat)
    requires IsLater(w, later) && i < |w.tape|
    ensures PollTime(w, i + 1) == PollTime(later, i)
    ensures TooLate(w, start, i + 1) <==> TooLate(later, start, i)
  {
    LatencyOfFirst(w.tape, i);
  }

  lemma GoesOnLater(
    status: StatusOutcome, statuses: seq<StatusOutcome>, v: View, views: seq<View>, w: World, later: World,
    start: int, i: nat)
    requires IsLater(w, later) && i < |w.tape| && |later.tape| == |statuses| == |views| - 1
    ensures GoesOn([status] + statuses, [v] + views, w, start, i + 1) <==> GoesOn(statuses, views, later, start, i)
    ensures TooLate(w, start, i + 1) <==> TooLate(later, start, i)
    ensures i + 1 < |w.tape| ==>
      (NoTargetsAt([status] + statuses, [v] + views, w, start, i + 1)
       <==> NoTargetsAt(statuses, views, later, start, i))
  {
    TooLateLater(w, later, start, i);
  }

  lemma InjectsLater(
    status: StatusOutcome, statuses: seq<StatusOutcome>, v: View, views: seq<View>, w: World, later: World,
    start: int, k: nat, outcome: Outcome)
    requires IsLater(w, later) && k < |w.tape| && |later.tape| == |statuses| == |views| - 1
    requires GoesOn([status] + statuses, [v] + views, w, start, 0)
    requires InjectsAs(statuses, views, later, start, k, outcome)
    ensures InjectsAs([status] + statuses, [v] + views, w, start, k + 1, outcome)
  {
    forall i: nat | i < k + 1
      ensures GoesOn([status] + statuses, [v] + views, w, start, i)
    {
      if i > 0 {
        GoesOnLater(status, statuses, v, views, w, later, start, i - 1);
        assert GoesOn(statuses, views, later, start, i - 1);
      }
    }
    GoesOnLater(status, statuses, v, views, w, later, start, k);
  }

  // ---------------------------------------------------------------- the wait for all faults

  /** The end time of the fault, or now if that is past. */
  ghost function EndOf(v: View, w: World): World
    requires v.endTime.Some?
  {
    World(if v.endTime.value < w.now then w.now else v.endTime.value, w.tape)
  }

  /** The wait for one fault: a panic exactly without an end time, else the wait for recovery from the end time on. */
  lemma FaultDecided(v: View, w: World) returns (k: nat)
    ensures FaultWait(v, w).outcome == NilPanic <==> v.endTime.None?
    ensures v.endTime.Some? ==> EndsRecovered(v, EndOf(v, w), k, FaultWait(v, w))
  {
    hide Poll, RecoveryWait, DecidedAt, RecoversAs, IsAfter;
    k := 0;
    if v.endTime.Some? {
      k := RecoveryEnds(v, EndOf(v, w));
      assert FaultWait(v, w) == RecoveryWait(v, EndOf(v, w));
    }
  }

  /** The wait for recovery, begun in this world, is decided after k polls and ends like this. */
  ghost predicate EndsRecovered(v: View, w: World, k: nat, f: Waited) {
    && DecidedAt(Statuses(v, w.tape), k) && RecoversAs(Statuses(v, w.tape), k, f.outcome)
    && IsAfter(v, w, if k < |w.tape| then k + 1 else k, k * 10_000_000_000, f)
  }

  lemma RecoveryEnds(v: View, w: World) returns (k: nat)
    ensures EndsRecovered(v, w, k, RecoveryWait(v, w)) && RecoveryWait(v, w).outcome != NilPanic
  {
    k := RecoveryDecided(v, w);
    OnlyRecoveries(Statuses(v, w.tape), k, RecoveryWait(v, w).outcome);
  }

  lemma OnlyRecoveries(statuses: seq<StatusOutcome>, k: nat, outcome: Outcome)
    requires DecidedAt(statuses, k) && RecoversAs(statuses, k, outcome)
    ensures outcome != NilPanic
  {
    if k < |statuses| && statuses[k].Reached? {
      assert statuses[k] == Reached(statuses[k].status);
      match statuses[k].status
      case Starting =>
      case InProgress =>
      case Stopping =>
      case Completed =>
    }
  }

  lemma FaultsWaitStep(run: Run, i: nat)
    requires i <= |run.sessions|
    ensures FaultsWait(run, i) ==
      if i == |run.sessions| then (Done, run)
      else
        var f := FaultWait(run.sessions[i], run.world);
        var next := Run(f.world, run.sessions[i := f.view]);
        if f.outcome != Done then (f.outcome, next) else FaultsWait(next, i + 1)
  {
  }

  /** The wait for fault i succeeds and takes the run to the next. */
  ghost predicate Awaited(run: Run, i: nat, next: Run) {
    && i < |run.sessions|
    && var f := FaultWait(run.sessions[i], run.world);
       f.outcome == Done && next == Run(f.world, run.sessions[i := f.view])
  }

  /** The faults from the first on have been waited for in turn, each until it had recovered. */
  ghost predicate AwaitedInTurn(runs: seq<Run>, first: nat) {
    && runs != []
    && forall i :: 0 <= i < |runs| - 1 ==> Awaited(runs[i], first + i, runs[i + 1])
  }

  /** The wait for fault i is the last: there is no such fault any more, or the wait does not succeed. */
  ghost predicate EndsAt(run: Run, i: nat, outcome: Outcome, end: Run)
    requires i <= |run.sessions|
  {
    if i == |run.sessions| then outcome == Done && end == run
    else
      var f := FaultWait(run.sessions[i], run.world);
      outcome == f.outcome != Done && end == Run(f.world, run.sessions[i := f.view])
  }

  /** The wait for all faults waits for one after the other. It succeeds exactly if each wait does, and otherwise ends
      as the first that does not. */
  lemma {:induction false} FaultsDecided(run: Run, first: nat) returns (runs: seq<Run>)
    requires first <= |run.sessions|
    ensures AwaitedInTurn(runs, first) && runs[0] == run
    ensures first + |runs| - 1 <= |runs[|runs| - 1].sessions|
    ensures EndsAt(runs[|runs| - 1], first + |runs| - 1, FaultsWait(run, first).0, FaultsWait(run, first).1)
    decreases |run.sessions| - first
  {
    hide FaultWait, FaultsWait;
    FaultsWaitStep(run, first);
    runs := [run];
    if first < |run.sessions| {
      var f := FaultWait(run.sessions[first], run.world);
      if f.outcome == Done {
        var next := Run(f.world, run.sessions[first := f.view]);
        assert FaultsWait(run, first) == FaultsWait(next, first + 1);
        var rest := FaultsDecided(next, first + 1);
        AwaitedCons(run, rest, first);
        runs := [run] + rest;
      }
    }
  }

  lemma AwaitedCons(run: Run, rest: seq<Run>, first: nat)
    requires rest != [] && Awaited(run, first, rest[0]) && AwaitedInTurn(rest, first + 1)
    ensures AwaitedInTurn([run] + rest, first)
  {
    var runs := [run] + rest;
    forall i | 0 <= i < |runs| - 1
      ensures Awaited(runs[i], first + i, runs[i + 1])
    {
      if i > 0 {
        assert Awaited(rest[i - 1], first + 1 + (i - 1), rest[i]);
      }
    }
  }

  // ---------------------------------------------------------------- the latest end time

  /** The latest end time of the sessions, or `now` if it is later. */
  ghost function LatestEnd(now: int, sessions: seq<View>): int {
    if sessions == [] then now
    else
      var last := sessions[|sessions| - 1];
      Max(LatestEnd(now, sessions[..|sessions| - 1]), if last.endTime.Some? then last.endTime.value else now)
  }

  /** After i faults and k replies: no earlier than their end times, and no later than those and the time spent
      polling allow. */
  ghost predicate InBudget(start: int, sessions: seq<View>, replies: seq<Reply>, k: nat, now: int) {
    && |sessions| <= k <= |replies|
    && start <= LatestEnd(start, sessions) <= now
    && now <= LatestEnd(start, sessions) + Latency(replies, k) + (k - |sessions|) * 10_000_000_000
  }

  /** The latest end is the maximum of the start and the end times, not their sum. */
  lemma {:induction false} LatestEndIsMaximum(start: int, sessions: seq<View>)
    ensures start <= LatestEnd(start, sessions)
    ensures forall s :: s in sessions && s.endTime.Some? ==> s.endTime.value <= LatestEnd(start, sessions)
    ensures LatestEnd(start, sessions) == start
      || exists s :: s in sessions && s.endTime == Some(LatestEnd(start, sessions))
  {
    if sessions != [] {
      var before, last := sessions[..|sessions| - 1], sessions[|sessions| - 1];
      LatestEndIsMaximum(start, before);
      assert sessions == before + [last];
      assert last in sessions;
    }
  }

  /** When polls take no time and each fault is found completed by its first poll, waiting for all of them ends
      exactly at the latest end time. */
  lemma SleepsAloneReachLatestEnd(start: int, sessions: seq<View>, replies: seq<Reply>, k: nat, now: int)
    requires InBudget(start, sessions, replies, k, now)
    requires k == |sessions| && forall r :: r in replies ==> r.latency == 0
    ensures now == LatestEnd(start, sessions)
  {
    NoLatency(replies, k);
  }

  lemma {:induction false} NoLatency(replies: seq<Reply>, k: nat)
    requires k <= |replies| && forall r :: r in replies ==> r.latency == 0
    ensures Latency(replies, k) == 0
  {
    if k > 0 {
      NoLatency(replies, k - 1);
      assert replies[k - 1] in replies;
    }
  }

  lemma BudgetStep(
    start: int, sessions: seq<View>, next: View, replies: seq<Reply>, k: nat, now: int, polls: nat, after: int)
    requires InBudget(start, sessions, replies, k, now) && next.endTime.Some?
    requires 1 <= polls <= |replies[k..]|
    requires after == Max(now, next.endTime.value) + Latency(replies[k..], polls) + (polls - 1) * 10_000_000_000
    ensures InBudget(start, sessions + [next], replies, k + polls, after)
  {
    LatencyOfRest(replies, k, polls);
    assert (sessions + [next])[..|sessions|] == sessions;
  }

  /** What a successful wait for one fault takes. */
  lemma FaultTakes(v: View, w: World) returns (polls: nat)
    requires FaultWait(v, w).outcome == Done
    ensures var f := FaultWait(v, w);
      && v.endTime.Some? && f.view.endTime == v.endTime
      && 1 <= polls <= |w.tape| && f.world.tape == w.tape[polls..]
      && f.world.now == Max(w.now, v.endTime.value) + Latency(w.tape, polls) + (polls - 1) * 10_000_000_000
  {
    var k := FaultDecided(v, w);
    polls := k + 1;
  }

  lemma BudgetBound(start: int, sessions: seq<View>, replies: seq<Reply>, k: nat, now: int)
    requires InBudget(start, sessions, replies, k, now)
    ensures |sessions| <= k <= |replies|
  {
  }

  lemma {:induction false} BudgetFrom(start: int, replies: seq<Reply>, run: Run, i: nat, k: nat)
    requires i <= |run.sessions| && k <= |replies| && run.world.tape == replies[k..]
    requires InBudget(start, run.sessions[..i], replies, k, run.world.now)
    requires FaultsWait(run, i).0 == Done
    ensures var end := FaultsWait(run, i).1;
      && |end.world.tape| <= |replies|
      && InBudget(start, end.sessions, replies, |replies| - |end.world.tape|, end.world.now)
    decreases |run.sessions| - i
  {
    hide FaultsWait, FaultWait, Latency, LatestEnd, InBudget;
    FaultsWaitStep(run, i);
    if i == |run.sessions| {
      BudgetBound(start, run.sessions[..i], replies, k, run.world.now);
      assert run.sessions[..i] == run.sessions;
    } else {
      var f := FaultWait(run.sessions[i], run.world);
      var next := Run(f.world, run.sessions[i := f.view]);
      var polls := FaultTakes(run.sessions[i], run.world);
      BudgetStep(start, run.sessions[..i], f.view, replies, k, run.world.now, polls, f.world.now);
      BudgetBound(start, run.sessions[..i] + [f.view], replies, k + polls, f.world.now);
      assert next.sessions[..i + 1] == run.sessions[..i] + [f.view];
      assert next.world.tape == replies[k + polls..];
      BudgetFrom(start, replies, next, i + 1, k + polls);
    }
  }

  /** The sleeps of a successful wait for all faults take the clock to their latest end time; only polling takes it
      further. */
  lemma FaultsInBudget(run: Run)
    requires FaultsWait(run, 0).0 == Done
    ensures var end := FaultsWait(run, 0).1;
      && |end.world.tape| <= |run.world.tape|
      && InBudget(
           run.world.now, end.sessions, run.world.tape, |run.world.tape| - |end.world.tape|, end.world.now)
  {
    hide FaultsWait;
    assert run.sessions[..0] == [] && run.world.tape[0..] == run.world.tape;
    BudgetFrom(run.world.now, run.world.tape, run, 0, 0);
  }

  // ---------------------------------------------------------------- plans

  lemma PlanRunStep(run: Run, steps: seq<Step>)
    ensures PlanRun(run, steps) ==
      if steps == [] then (Done, run)
      else if StepRun(run, steps[0]).0 != Done then StepRun(run, steps[0])
      else PlanRun(StepRun(run, steps[0]).1, steps[1..])
  {
  }

  /** The runs between the steps of a plan, each step so far having succeeded. */
  ghost predicate InTurn(runs: seq<Run>, steps: seq<Step>) {
    && 0 < |runs| <= |steps| + 1
    && forall i :: 0 <= i < |runs| - 1 ==> StepRun(runs[i], steps[i]) == (Done, runs[i + 1])
  }

  /** A plan succeeds exactly if every step succeeds in turn, and otherwise ends as the first that does not. */
  lemma {:induction false} PlanDecided(run: Run, steps: seq<Step>) returns (runs: seq<Run>)
    ensures InTurn(runs, steps) && runs[0] == run
    ensures var ((outcome, end), n) := (PlanRun(run, steps), |runs| - 1);
      if n == |steps| then outcome == Done && end == runs[n]
      else outcome != Done && StepRun(runs[n], steps[n]) == (outcome, end)
    decreases |steps|
  {
    runs := [run];
    if steps != [] {
      var (outcome, next) := StepRun(run, steps[0]);
      if outcome == Done {
        var rest := PlanDecided(next, steps[1..]);
        runs := [run] + rest;
        forall i | 0 <= i < |runs| - 1
          ensures StepRun(runs[i], steps[i]) == (Done, runs[i + 1])
        {
          if i > 0 {
            assert StepRun(rest[i - 1], steps[1..][i - 1]) == (Done, rest[i]);
          }
        }
      }
    }
  }

  /** What the single steps do: a fault is started with the session its type, action and duration ask for, and waited
      for; a duration always passes, negative ones at once; a malformed step or a failed start changes nothing. */
  lemma StepDecided(run: Run, step: Step)
    ensures var (outcome, end) := StepRun(run, step);
      match step
      case Malformed(e) => outcome == Failed(e) && end == run
      case WaitForDuration(amount) =>
        && outcome == Done && end.sessions == run.sessions && end.world.tape == run.world.tape
        && end.world.now == run.world.now + (if amount > 0 then amount else 0)
      case WaitForFaultCompletion => (outcome, end) == FaultsWait(run, 0)
      case InjectFault(Err(e)) => outcome == Failed(e) && end == run
      case InjectFault(Ok(fault)) =>
        && |end.sessions| == |run.sessions| + 1 && end.sessions[..|run.sessions|] == run.sessions
        && exists v :: IsSessionOf(v, fault, run.world.now)
             && InjectionWait(v, run.world, run.world.now)
                == Waited(outcome, end.sessions[|run.sessions|], end.world)
  {
    if step.InjectFault? && step.start.Ok? {
      assert IsSessionOf(Started(step.start.value, run.world.now), step.start.value, run.world.now);
    }
  }

  /** A session that knows nothing yet: a pod kill is a PodChaos fault with that action, and the end time is that of
      the fault's duration, if it has one. */
  ghost predicate IsSessionOf(v: View, fault: Fault, now: int) {
    && v.state == NEW_SESSION
    && (v.podKill <==> fault.faultType == "PodChaos" && fault.action == "pod-kill")
    && (v.endTime.Some? <==> fault.duration.Some?)
    && (v.endTime.Some? ==> v.endTime.value == now + fault.duration.value)
  }

  // ---------------------------------------------------------------- how long it takes

  lemma RecoveryTakesTime(v: View, w: World)
    ensures FaultWait(v, w).world.now >= w.now
  {
    var k := FaultDecided(v, w);
  }

  lemma InjectionTakesTime(v: View, w: World, start: int)
    ensures InjectionWait(v, w, start).world.now >= w.now
  {
    var k := InjectionDecided(v, w, start);
  }

  lemma {:induction false} FaultsTakeTime(run: Run, i: nat)
    requires i <= |run.sessions|
    ensures FaultsWait(run, i).1.world.now >= run.world.now
    decreases |run.sessions| - i
  {
    if i < |run.sessions| {
      var f := FaultWait(run.sessions[i], run.world);
      RecoveryTakesTime(run.sessions[i], run.world);
      if f.outcome == Done {
        FaultsTakeTime(Run(f.world, run.sessions[i := f.view]), i + 1);
      }
    }
  }

  lemma StepTakesTime(run: Run, step: Step)
    ensures StepRun(run, step).1.world.now
      >= run.world.now + if step.WaitForDuration? && step.amount > 0 then step.amount else 0
  {
    match step
    case InjectFault(Ok(fault)) =>
      InjectionTakesTime(Started(fault, run.world.now), run.world, run.world.now);
    case WaitForFaultCompletion => FaultsTakeTime(run, 0);
    case _ =>
  }

  /** The sum of the durations a plan waits for. */
  ghost function Durations(steps: seq<Step>): int {
    if steps == [] then 0
    else
      Durations(steps[1..])
      + if steps[0].WaitForDuration? && steps[0].amount > 0 then steps[0].amount else 0
  }

  /** A plan that succeeds has waited for all its durations. */
  lemma {:induction false} PlanTakesTime(run: Run, steps: seq<Step>)
    requires PlanRun(run, steps).0 == Done
    ensures PlanRun(run, steps).1.world.now >= run.world.now + Durations(steps)
    decreases |steps|
  {
    if steps != [] {
      StepTakesTime(run, steps[0]);
      PlanTakesTime(StepRun(run, steps[0]).1, steps[1..]);
    }
  }
}
