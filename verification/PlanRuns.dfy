/** What the waits and steps of pkg/test_executor/executor.go come to, as functions of the sessions, the clock and the
    replies to come. */
module PlanRuns {
  import opened Common
  import opened FaultSessions

  const MILLISECOND := 1_000_000
  const SECOND := 1_000_000_000

  const STILL_STARTING := "chaos-mesh is still in a 'starting' state after 10 seconds"
  const NO_TARGETS := "chaos-mesh was unable to identify any pods for injection"

  /** What the next call of GetStatus meets: the time it takes, and what it finds. */
  datatype Reply = Reply(latency: nat, observation: Observation)

  /** `NilPanic` is the dereference of a missing end time, `StatePanic` the panic of GetStatus, `Unfinished` a
      wait that is still going on when the replies run out. */
  datatype Outcome = Done | Failed(message: string) | NilPanic | StatePanic | Unfinished

  /** What starting a fault comes to: the fault's type, action and duration, or an error. */
  datatype Fault = Fault(faultType: string, action: string, duration: Option<int>)

  datatype Step =
    | InjectFault(start: Result<Fault, string>)
    | WaitForFaultCompletion
    | WaitForDuration(amount: int)
    | Malformed(error: string)

  /** A session as the waits see it. */
  datatype View = View(state: SessionState, podKill: bool, endTime: Option<int>)

  /** The clock in nanoseconds, and the replies still to come. */
  datatype World = World(now: int, tape: seq<Reply>)

  /** How a wait for one fault ends. */
  datatype Waited = Waited(outcome: Outcome, view: View, world: World)

  /** The executor between two steps. */
  datatype Run = Run(world: World, sessions: seq<View>)

  function Slept(w: World, duration: int): World {
    w.(now := w.now + Max(duration, 0))
  }

  /** The session, the world and the status after one call of GetStatus. */
  function Polled(v: View, w: World): (View, World, StatusOutcome)
    requires w.tape != []
  {
    var (state, status) := Poll(v.state, v.podKill, w.tape[0].observation);
    (v.(state := state), World(w.now + w.tape[0].latency, w.tape[1..]), status)
  }

  /** waitForInjectionCompleted, begun at `start`. */
  function InjectionWait(v: View, w: World, start: int): Waited
    decreases |w.tape|
  {
    if w.now > start + 10 * SECOND then Waited(Failed(STILL_STARTING), v, w)
    else if w.tape == [] then Waited(Unfinished, v, w)
    else
      var (v', w', status) := Polled(v, w);
      if status == InvalidState then Waited(StatePanic, v', w')
      else if status.Reached? && status.status != Starting then Waited(Done, v', w')
      else if status.Reached? && !v'.state.targetSelectionCompleted && w'.now > start + 5 * SECOND then
        Waited(Failed(NO_TARGETS), v', w')
      else InjectionWait(v', Slept(w', 250 * MILLISECOND), start)
  }

  /** waitForFaultRecovery. */
  function RecoveryWait(v: View, w: World): Waited
    decreases |w.tape|
  {
    if w.tape == [] then Waited(Unfinished, v, w)
    else
      var (v', w', status) := Polled(v, w);
      match status
      case InvalidState => Waited(StatePanic, v', w')
      case StatusError(e) => Waited(Failed(e), v', w')
      case Reached(Completed) => Waited(Done, v', w')
      case Reached(Starting) => Waited(Failed("unknown chaos session state"), v', w')
      case Reached(_) => RecoveryWait(v', Slept(w', 10 * SECOND))
  }

  /** The body of the loop of runWaitForFaultCompletion. */
  function FaultWait(v: View, w: World): Waited {
    if v.endTime.None? then Waited(NilPanic, v, w)
    else RecoveryWait(v, Slept(w, v.endTime.value - w.now))
  }

  /** runWaitForFaultCompletion from session i on. */
  function FaultsWait(run: Run, i: nat): (Outcome, Run)
    requires i <= |run.sessions|
    decreases |run.sessions| - i
  {
    if i == |run.sessions| then (Done, run)
    else
      var f := FaultWait(run.sessions[i], run.world);
      var next := Run(f.world, run.sessions[i := f.view]);
      if f.outcome != Done then (f.outcome, next) else FaultsWait(next, i + 1)
  }

  /** A session of a fault started now. */
  function Started(fault: Fault, now: int): View {
    View(NEW_SESSION, fault.faultType == "PodChaos" && fault.action == "pod-kill",
         if fault.duration.Some? then Some(now + fault.duration.value) else None)
  }

  /** One step of a plan. */
  function StepRun(run: Run, step: Step): (Outcome, Run) {
    match step
    case InjectFault(Err(e)) => (Failed(e), run)
    case InjectFault(Ok(fault)) =>
      var f := InjectionWait(Started(fault, run.world.now), run.world, run.world.now);
      (f.outcome, Run(f.world, run.sessions + [f.view]))
    case WaitForFaultCompletion => FaultsWait(run, 0)
    case WaitForDuration(amount) => (Done, run.(world := Slept(run.world, amount)))
    case Malformed(e) => (Failed(e), run)
  }

  /** runTestPlan: the steps in turn, up to the first that does not succeed. */
  function PlanRun(run: Run, steps: seq<Step>): (Outcome, Run)
    decreases |steps|
  {
    if steps == [] then (Done, run)
    else
      var (outcome, next) := StepRun(run, steps[0]);
      if outcome != Done then (outcome, next) else PlanRun(next, steps[1..])
  }
}
