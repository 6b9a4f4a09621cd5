/** FaultSession of pkg/chaos-mesh/session.go: the state kept about one injected fault, and its status. */
module FaultSessions {
  import opened Common
  import opened Strings

  /** Labels and flags of a pod hit by a fault (pkg/chaos-mesh/pods.go). */
  datatype PodUnderTest = PodUnderTest(
    name: string, labels: map<string, string>, expectDeath: bool, touchedByFault: bool)

  datatype FaultStatus = Starting | InProgress | Stopping | Completed

  /** What GetStatus ends with: a status, an error, or the "invalid state" panic. */
  datatype StatusOutcome = Reached(status: FaultStatus) | StatusError(message: string) | InvalidState

  datatype Event = Event(failed: bool, recover: bool, message: string)

  datatype Record = Record(id: string, phase: string, injectedCount: int, recoveredCount: int, events: seq<Event>)

  datatype Condition = Condition(kind: string, status: string)

  /** The Chaos Mesh resource of a fault; absent lists are nil. */
  datatype Resource = Resource(conditions: Option<seq<Condition>>, records: Option<seq<Record>>)

  /** What one poll finds: the resource, and the labels of the pods it may look up. */
  datatype Observation = Observation(
    resource: Result<Resource, string>, labels: map<string, map<string, string>>)

  /** The mutable part of a session. */
  datatype SessionState = SessionState(
    podsFailingRecovery: map<string, Record>,
    checkedForMissingPods: bool,
    podsExpectedMissing: nat,
    targetSelectionCompleted: bool,
    podsUnderTest: seq<PodUnderTest>)

  const NEW_SESSION := SessionState(map[], false, 0, false, [])

  // ---------------------------------------------------------------- one poll, as a function of the state

  /** The first condition of type Selected. */
  function FirstSelected(conditions: seq<Condition>): Option<Condition> {
    if conditions == [] then None
    else if conditions[0].kind == "Selected" then Some(conditions[0])
    else FirstSelected(conditions[1..])
  }

  /** checkTargetSelectionCompleted: the new state, and whether targets are to be recorded. */
  function SelectTargets(s: SessionState, conditions: Option<seq<Condition>>): (SessionState, Result<bool, string>) {
    if s.targetSelectionCompleted then (s, Ok(false))
    else if conditions.None? then (s, Err("Unable to decode status.chaosstatus.conditions"))
    else
      match FirstSelected(conditions.value)
      case None => (s, Ok(false))
      case Some(c) => (s.(targetSelectionCompleted := c.status == "True"), Ok(true))
  }

  /** filterInjectedPods: the pod names of the records in the injected phase. */
  function InjectedPods(records: seq<Record>): Result<seq<string>, string> {
    if records == [] then Ok([])
    else if records[0].phase != "Injected" then InjectedPods(records[1..])
    else
      var parts := Split(records[0].id, '/');
      if |parts| <= 2 then Err("fault record id was split into less than two parts")
      else Prepend([parts[1]], InjectedPods(records[1..]))
  }

  /** buildPodsUnderTestSlice. */
  function PodsNamed(names: seq<string>, labels: map<string, map<string, string>>, expectDeath: bool)
    : Result<seq<PodUnderTest>, string>
  {
    if names == [] then Ok([])
    else if names[0] !in labels then Err(names[0])
    else
      var pod := PodUnderTest(names[0], labels[names[0]], expectDeath, false);
      Prepend([pod], PodsNamed(names[1..], labels, expectDeath))
  }

  /** populatePodsUnderTest: only its first call has an effect, even if that call fails. */
  function RecordTargets(
    s: SessionState, podKill: bool, records: seq<Record>, labels: map<string, map<string, string>>)
    : (SessionState, Option<string>)
  {
    if s.checkedForMissingPods then (s, None)
    else
      var checked := s.(checkedForMissingPods := true);
      match InjectedPods(records)
      case Err(e) => (checked, Some(e))
      case Ok(names) =>
        var counted := if podKill then checked.(podsExpectedMissing := |names|) else checked;
        match PodsNamed(names, labels, counted.podsExpectedMissing > 0)
        case Err(e) => (counted, Some(e))
        case Ok(pods) => (counted.(podsUnderTest := pods), None)
  }

  /** getFaultRecords, once the resource has been read. */
  function ReadRecords(s: SessionState, podKill: bool, resource: Resource, labels: map<string, map<string, string>>)
    : (SessionState, Result<Option<seq<Record>>, string>)
  {
    var (selected, record) := SelectTargets(s, resource.conditions);
    if record.Err? then (selected, Err(record.error))
    else if record.value && resource.records.Some? then
      var (recorded, failure) := RecordTargets(selected, podKill, resource.records.value, labels);
      (recorded, if failure.Some? then Err(failure.value) else Ok(resource.records))
    else (selected, Ok(resource.records))
  }

  /** The recovery failures a record reports. */
  function FailureMessages(events: seq<Event>): set<string> {
    if events == [] then {}
    else
      var e := events[0];
      FailureMessages(events[1..]) + if e.failed && e.recover then {e.message} else {}
  }

  /** checkForFailedRecovery: messages not seen before are kept with their record. */
  function NoteFailures(failing: map<string, Record>, record: Record): map<string, Record> {
    (map m | m in FailureMessages(record.events) :: record) + failing
  }

  predicate NotInjected(r: Record) { r.injectedCount == 0 }

  predicate Recovered(r: Record) { r.injectedCount != 0 && r.injectedCount == r.recoveredCount }

  predicate NotRecovered(r: Record) { r.injectedCount != 0 && r.injectedCount != r.recoveredCount }

  function CountIf(records: seq<Record>, p: Record -> bool): nat {
    if records == [] then 0
    else CountIf(records[..|records| - 1], p) + if p(records[|records| - 1]) then 1 else 0
  }

  /** The failures known after the records of a poll: only unrecovered ones are looked at. */
  function FailuresAfter(failing: map<string, Record>, records: seq<Record>): map<string, Record> {
    if records == [] then failing
    else
      var before, last := FailuresAfter(failing, records[..|records| - 1]), records[|records| - 1];
      if NotRecovered(last) then NoteFailures(before, last) else before
  }

  /** The decision table of GetStatus: a records recovered, b injected but not recovered, c not injected, n in
      all; F failure messages and m pods expected missing. */
  function Classify(a: nat, b: nat, c: nat, n: nat, F: nat, m: nat): StatusOutcome {
    if c > 0 then Reached(Starting)
    else if b - m > 0 && a == 0 then Reached(InProgress)
    else if a + F + m == n then Reached(Completed)
    else if b > 0 && a > 0 then Reached(Stopping)
    else InvalidState
  }

  function ClassifyRecords(records: seq<Record>, F: nat, m: nat): StatusOutcome {
    Classify(
      CountIf(records, Recovered), CountIf(records, NotRecovered), CountIf(records, NotInjected), |records|, F, m)
  }

  /** GetStatus. */
  function Poll(s: SessionState, podKill: bool, o: Observation): (SessionState, StatusOutcome) {
    if o.resource.Err? then (s, StatusError(o.resource.error))
    else
      var (read, records) := ReadRecords(s, podKill, o.resource.value, o.labels);
      if records.Err? then (read, StatusError(records.error))
      else if records.value.None? then (read, Reached(Starting))
      else
        var after := read.(podsFailingRecovery := FailuresAfter(read.podsFailingRecovery, records.value.value));
        (after, ClassifyRecords(records.value.value, |after.podsFailingRecovery|, after.podsExpectedMissing))
  }

  // ---------------------------------------------------------------- the code

  method FilterInjectedPods(records: seq<Record>) returns (r: Result<seq<string>, string>)
    ensures r == InjectedPods(records)
  {
    var pods: seq<string> := [];
    PrependEmpty([], InjectedPods(records));
    assert records[0..] == records;
    for i := 0 to |records|
      invariant InjectedPods(records) == Prepend(pods, InjectedPods(records[i..]))
    {
      assert records[i..][1..] == records[i + 1..];
      if records[i].phase == "Injected" {
        var parts := Split(records[i].id, '/');
        if |parts| <= 2 {
          return Err("fault record id was split into less than two parts");
        }
        PrependTwice(pods, [parts[1]], InjectedPods(records[i + 1..]));
        pods := pods + [parts[1]];
      }
    }
    PrependEmpty<string, string>(pods, Ok([]));
    return Ok(pods);
  }

  method BuildPodsUnderTestSlice(names: seq<string>, labels: map<string, map<string, string>>, expectDeath: bool)
    returns (r: Result<seq<PodUnderTest>, string>)
    ensures r == PodsNamed(names, labels, expectDeath)
  {
    var pods: seq<PodUnderTest> := [];
    PrependEmpty([], PodsNamed(names, labels, expectDeath));
    assert names[0..] == names;
    for i := 0 to |names|
      invariant PodsNamed(names, labels, expectDeath) == Prepend(pods, PodsNamed(names[i..], labels, expectDeath))
    {
      if names[i] !in labels {
        return Err(names[i]);
      }
      assert names[i..][1..] == names[i + 1..];
      var pod := PodUnderTest(names[i], labels[names[i]], expectDeath, false);
      PrependTwice(pods, [pod], PodsNamed(names[i + 1..], labels, expectDeath));
      pods := pods + [pod];
    }
    PrependEmpty<PodUnderTest, string>(pods, Ok([]));
    return Ok(pods);
  }

  class FaultSession {
    const faultType: string
    const faultAction: string
    const testEndTime: Option<int>
    var podsFailingRecovery: map<string, Record>
    var checkedForMissingPods: bool
    var podsExpectedMissing: nat
    var targetSelectionCompleted: bool
    var podsUnderTest: seq<PodUnderTest>

    /** The last status reported, and when. */
    ghost var lastStatus: Option<FaultStatus>
    ghost var polledAt: int
    /** Some status past Starting has been reported. */
    ghost var seenInjected: bool

    ghost function State(): SessionState
      reads this
    {
      SessionState(
        podsFailingRecovery, checkedForMissingPods, podsExpectedMissing, targetSelectionCompleted, podsUnderTest)
    }

    predicate PodKill() { faultType == "PodChaos" && faultAction == "pod-kill" }

    /** A fault without a duration has no end time. */
    constructor (faultType: string, faultAction: string, now: int, duration: Option<int>)
      ensures State() == NEW_SESSION && lastStatus == None && !seenInjected
      ensures this.faultType == faultType && this.faultAction == faultAction
      ensures testEndTime == if duration.Some? then Some(now + duration.value) else None
    {
      this.faultType, this.faultAction := faultType, faultAction;
      testEndTime := if duration.Some? then Some(now + duration.value) else None;
      podsFailingRecovery, checkedForMissingPods, podsExpectedMissing := map[], false, 0;
      targetSelectionCompleted, podsUnderTest := false, [];
      lastStatus, polledAt, seenInjected := None, now, false;
    }

    method CheckTargetSelectionCompleted(conditions: Option<seq<Condition>>) returns (r: Result<bool, string>)
      modifies this`targetSelectionCompleted
      ensures (State(), r) == SelectTargets(old(State()), conditions)
    {
      if targetSelectionCompleted {
        return Ok(false);
      }
      if conditions.None? {
        return Err("Unable to decode status.chaosstatus.conditions");
      }
      assert conditions.value[0..] == conditions.value;
      for i := 0 to |conditions.value|
        invariant State() == old(State())
        invariant FirstSelected(conditions.value) == FirstSelected(conditions.value[i..])
      {
        if conditions.value[i].kind == "Selected" {
          if conditions.value[i].status == "True" {
            targetSelectionCompleted := true;
          }
          return Ok(true);
        }
        assert conditions.value[i..][1..] == conditions.value[i + 1..];
      }
      return Ok(false);
    }

    /** Reports the messages that are new, each once. */
    method CheckForFailedRecovery(record: Record) returns (failing: bool, messages: set<string>)
      modifies this`podsFailingRecovery
      ensures podsFailingRecovery == NoteFailures(old(podsFailingRecovery), record)
      ensures messages == podsFailingRecovery.Keys - old(podsFailingRecovery).Keys
      ensures failing <==> messages != {}
    {
      messages := {};
      var i := |record.events|;
      ghost var known := podsFailingRecovery;
      while i > 0
        invariant 0 <= i <= |record.events|
        invariant messages == FailureMessages(record.events[i..]) - known.Keys
        invariant podsFailingRecovery.Keys == known.Keys + messages
        invariant forall m :: m in podsFailingRecovery ==>
          podsFailingRecovery[m] == if m in known then known[m] else record
      {
        i := i - 1;
        var event := record.events[i];
        assert record.events[i..][0] == event && record.events[i..][1..] == record.events[i + 1..];
        if event.failed && event.recover && event.message !in podsFailingRecovery {
          messages := messages + {event.message};
          podsFailingRecovery := podsFailingRecovery[event.message := record];
        }
      }
      assert record.events[0..] == record.events;
      assert podsFailingRecovery == NoteFailures(known, record);
      failing := messages != {};
    }

    method PopulatePodsUnderTest(records: seq<Record>, labels: map<string, map<string, string>>)
      returns (error: Option<string>)
      modifies this`checkedForMissingPods, this`podsExpectedMissing, this`podsUnderTest
      ensures (State(), error) == RecordTargets(old(State()), PodKill(), records, labels)
    {
      if checkedForMissingPods {
        return None;
      }
      checkedForMissingPods := true;
      var names := FilterInjectedPods(records);
      if names.Err? {
        return Some(names.error);
      }
      if PodKill() {
        podsExpectedMissing := |names.value|;
      }
      var pods := BuildPodsUnderTestSlice(names.value, labels, podsExpectedMissing > 0);
      if pods.Err? {
        return Some(pods.error);
      }
      podsUnderTest := pods.value;
      return None;
    }

    method GetFaultRecords(resource: Resource, labels: map<string, map<string, string>>)
      returns (r: Result<Option<seq<Record>>, string>)
      modifies this`targetSelectionCompleted
      modifies this`checkedForMissingPods, this`podsExpectedMissing, this`podsUnderTest
      ensures (State(), r) == ReadRecords(old(State()), PodKill(), resource, labels)
    {
      var record := CheckTargetSelectionCompleted(resource.conditions);
      if record.Err? {
        return Err(record.error);
      }
      if record.value && resource.records.Some? {
        var error := PopulatePodsUnderTest(resource.records.value, labels);
        if error.Some? {
          return Err(error.value);
        }
      }
      return Ok(resource.records);
    }

    /** `reported` is what the poll logs as new recovery failures. */
    method GetStatus(o: Observation, ghost now: int) returns (r: StatusOutcome, ghost reported: set<string>)
      modifies this
      ensures (State(), r) == Poll(old(State()), PodKill(), o)
      ensures reported == podsFailingRecovery.Keys - old(podsFailingRecovery).Keys
      ensures r.Reached? ==> lastStatus == Some(r.status) && polledAt == now
      ensures !r.Reached? ==> lastStatus == old(lastStatus) && polledAt == old(polledAt)
      ensures seenInjected <==> old(seenInjected) || (r.Reached? && r.status != Starting)
    {
      reported := {};
      if o.resource.Err? {
        return StatusError(o.resource.error), {};
      }
      var read := GetFaultRecords(o.resource.value, o.labels);
      if read.Err? {
        return StatusError(read.error), {};
      }
      if read.value.None? {
        lastStatus, polledAt := Some(Starting), now;
        return Reached(Starting), {};
      }
      var records := read.value.value;
      var a, b, c;
      a, b, c, reported := CountRecords(records);
      r := Classify(a, b, c, |records|, |podsFailingRecovery|, podsExpectedMissing);
      if r.Reached? {
        lastStatus, polledAt, seenInjected := Some(r.status), now, seenInjected || r.status != Starting;
      }
    }

    /** The loop of GetStatus over the records. */
    method CountRecords(records: seq<Record>) returns (a: nat, b: nat, c: nat, ghost reported: set<string>)
      modifies this`podsFailingRecovery
      ensures a == CountIf(records, Recovered) && b == CountIf(records, NotRecovered)
      ensures c == CountIf(records, NotInjected)
      ensures podsFailingRecovery == FailuresAfter(old(podsFailingRecovery), records)
      ensures reported == podsFailingRecovery.Keys - old(podsFailingRecovery).Keys
    {
      a, b, c, reported := 0, 0, 0, {};
      ghost var known := podsFailingRecovery;
      for i := 0 to |records|
        invariant a == CountIf(records[..i], Recovered) && b == CountIf(records[..i], NotRecovered)
        invariant c == CountIf(records[..i], NotInjected)
        invariant podsFailingRecovery == FailuresAfter(known, records[..i])
        invariant known.Keys <= podsFailingRecovery.Keys
        invariant reported == podsFailingRecovery.Keys - known.Keys
      {
        assert records[..i + 1][..i] == records[..i];
        if records[i].injectedCount == 0 {
          c := c + 1;
        } else if records[i].injectedCount == records[i].recoveredCount {
          a := a + 1;
        } else {
          b := b + 1;
          var failing, messages := CheckForFailedRecovery(records[i]);
          reported := reported + messages;
        }
      }
      assert records[..|records|] == records;
    }
  }
}
