/** Properties of a fault session over any sequence of polls. */
module SessionProofs {
  import opened Common
  import opened Strings
  import opened FaultSessions

  // ---------------------------------------------------------------- classification

  /** The "invalid state" panic is reached exactly in these cases, for any counts of a poll: everything injected,
      the unrecovered records not all explained by failures and expected deaths, and either no record recovered
      with at most the expected deaths outstanding, or some recovered with none outstanding. */
  lemma InvalidStateIff(a: nat, b: nat, c: nat, F: nat, m: nat)
    ensures Classify(a, b, c, a + b + c, F, m) == InvalidState <==>
      c == 0 && b != F + m && ((a == 0 && b <= m) || (a > 0 && b == 0))
  {
  }

  lemma {:induction false} CountsAddUp(records: seq<Record>)
    ensures CountIf(records, Recovered) + CountIf(records, NotRecovered) + CountIf(records, NotInjected) == |records|
  {
    if records != [] {
      CountsAddUp(records[..|records| - 1]);
    }
  }

  /** The panic, for every record list; it cannot happen when no pod is expected to die and no recovery failed. */
  lemma PanicsIff(records: seq<Record>, F: nat, m: nat)
    ensures ClassifyRecords(records, F, m) == InvalidState <==>
      var (a, b) := (CountIf(records, Recovered), CountIf(records, NotRecovered));
      a + b == |records| && b != F + m && ((a == 0 && b <= m) || (a > 0 && b == 0))
    ensures F == 0 && m == 0 ==> ClassifyRecords(records, F, m) != InvalidState
  {
    CountsAddUp(records);
    InvalidStateIff(CountIf(records, Recovered), CountIf(records, NotRecovered), CountIf(records, NotInjected), F, m);
  }

  // ---------------------------------------------------------------- runs

  /** The state after a sequence of polls. */
  function After(s: SessionState, podKill: bool, polls: seq<Observation>): SessionState {
    if polls == [] then s
    else Poll(After(s, podKill, polls[..|polls| - 1]), podKill, polls[|polls| - 1]).0
  }

  /** What poll i of a sequence reports. */
  function OutcomeAt(s: SessionState, podKill: bool, polls: seq<Observation>, i: nat): StatusOutcome
    requires i < |polls|
  {
    Poll(After(s, podKill, polls[..i]), podKill, polls[i]).1
  }

  /** The recovery failures poll i reports as new. */
  ghost function ReportedAt(s: SessionState, podKill: bool, polls: seq<Observation>, i: nat): set<string>
    requires i < |polls|
  {
    After(s, podKill, polls[..i + 1]).podsFailingRecovery.Keys - After(s, podKill, polls[..i]).podsFailingRecovery.Keys
  }

  /** What no poll ever undoes: known failures stay with their record, and once pods have been recorded neither
      they nor their expected number change. */
  ghost predicate Extends(early: SessionState, late: SessionState) {
    && (forall m :: m in early.podsFailingRecovery ==>
         m in late.podsFailingRecovery && late.podsFailingRecovery[m] == early.podsFailingRecovery[m])
    && (early.targetSelectionCompleted ==> late.targetSelectionCompleted)
    && (early.checkedForMissingPods ==>
         && late.checkedForMissingPods
         && late.podsExpectedMissing == early.podsExpectedMissing
         && late.podsUnderTest == early.podsUnderTest)
  }

  lemma {:induction false} FailuresKept(failing: map<string, Record>, records: seq<Record>)
    ensures forall m :: m in failing ==>
      m in FailuresAfter(failing, records) && FailuresAfter(failing, records)[m] == failing[m]
  {
    if records != [] {
      FailuresKept(failing, records[..|records| - 1]);
    }
  }

  lemma PollExtends(s: SessionState, podKill: bool, o: Observation)
    ensures Extends(s, Poll(s, podKill, o).0)
  {
    if o.resource.Ok? {
      var (read, records) := ReadRecords(s, podKill, o.resource.value, o.labels);
      ReadExtends(s, podKill, o.resource.value, o.labels);
      if records.Ok? && records.value.Some? {
        FailuresKept(read.podsFailingRecovery, records.value.value);
      }
    }
  }

  lemma ReadExtends(s: SessionState, podKill: bool, resource: Resource, labels: map<string, map<string, string>>)
    ensures var read := ReadRecords(s, podKill, resource, labels).0;
      Extends(s, read) && read.podsFailingRecovery == s.podsFailingRecovery
  {
    var (selected, record) := SelectTargets(s, resource.conditions);
    assert Extends(s, selected);
    if record.Ok? && record.value && resource.records.Some? {
      RecordingExtends(selected, podKill, resource.records.value, labels);
    }
  }

  lemma RecordingExtends(
    s: SessionState, podKill: bool, records: seq<Record>, labels: map<string, map<string, string>>)
    ensures var r := RecordTargets(s, podKill, records, labels).0;
      && Extends(s, r) && r.podsFailingRecovery == s.podsFailingRecovery
      && r.targetSelectionCompleted == s.targetSelectionCompleted
  {
  }

  lemma {:induction false} RunExtends(s: SessionState, podKill: bool, polls: seq<Observation>, i: nat)
    requires i <= |polls|
    ensures Extends(After(s, podKill, polls[..i]), After(s, podKill, polls))
  {
    var n := |polls| - 1;
    if i == |polls| {
      assert polls[..i] == polls;
    } else {
      RunExtends(s, podKill, polls[..n], i);
      assert polls[..n][..i] == polls[..i];
      PollExtends(After(s, podKill, polls[..n]), podKill, polls[n]);
    }
  }

  /** Each recovery failure is reported as new by at most one poll, and only while it is unknown. */
  lemma ReportedOnce(s: SessionState, podKill: bool, polls: seq<Observation>, i: nat, j: nat)
    requires i < j < |polls|
    ensures ReportedAt(s, podKill, polls, i) !! ReportedAt(s, podKill, polls, j)
  {
    RunExtends(s, podKill, polls[..j], i + 1);
    assert polls[..j][..i + 1] == polls[..i + 1];
  }

  // ---------------------------------------------------------------- recorded targets

  /** What holds of every session: nothing is recorded before the one call that records targets; recorded pods
      expect death exactly for pod kills, which then number `podsExpectedMissing`; other faults expect none. */
  ghost predicate Consistent(s: SessionState, podKill: bool) {
    && (!s.checkedForMissingPods ==> s.podsExpectedMissing == 0 && s.podsUnderTest == [])
    && (!podKill ==> s.podsExpectedMissing == 0)
    && (s.podsUnderTest != [] ==>
         && (forall p :: p in s.podsUnderTest ==> (p.expectDeath <==> podKill))
         && (podKill ==> |s.podsUnderTest| == s.podsExpectedMissing))
  }

  lemma {:induction false} PodsNamedExact(
    names: seq<string>, labels: map<string, map<string, string>>, expectDeath: bool)
    requires PodsNamed(names, labels, expectDeath).Ok?
    ensures var pods := PodsNamed(names, labels, expectDeath).value;
      && |pods| == |names|
      && forall i :: 0 <= i < |pods| ==>
           && pods[i].name == names[i] && names[i] in labels && pods[i].labels == labels[names[i]]
           && pods[i].expectDeath == expectDeath && !pods[i].touchedByFault
  {
    if names != [] {
      PodsNamedExact(names[1..], labels, expectDeath);
    }
  }

  lemma RecordingIsConsistent(
    s: SessionState, podKill: bool, records: seq<Record>, labels: map<string, map<string, string>>)
    requires Consistent(s, podKill)
    ensures Consistent(RecordTargets(s, podKill, records, labels).0, podKill)
  {
    if !s.checkedForMissingPods && InjectedPods(records).Ok? {
      var names := InjectedPods(records).value;
      var m := if podKill then |names| else 0;
      if PodsNamed(names, labels, m > 0).Ok? {
        PodsNamedExact(names, labels, m > 0);
      }
    }
  }

  /** The invariant over any sequence of polls of a new session. */
  lemma {:induction false} RunsAreConsistent(podKill: bool, polls: seq<Observation>)
    ensures Consistent(After(NEW_SESSION, podKill, polls), podKill)
  {
    if polls != [] {
      var n := |polls| - 1;
      RunsAreConsistent(podKill, polls[..n]);
      PollIsConsistent(After(NEW_SESSION, podKill, polls[..n]), podKill, polls[n]);
    }
  }

  lemma PollIsConsistent(s: SessionState, podKill: bool, o: Observation)
    requires Consistent(s, podKill)
    ensures Consistent(Poll(s, podKill, o).0, podKill)
  {
    if o.resource.Ok? {
      ReadIsConsistent(s, podKill, o.resource.value, o.labels);
    }
  }

  lemma ReadIsConsistent(s: SessionState, podKill: bool, resource: Resource, labels: map<string, map<string, string>>)
    requires Consistent(s, podKill)
    ensures Consistent(ReadRecords(s, podKill, resource, labels).0, podKill)
  {
    if resource.records.Some? {
      var selected := SelectTargets(s, resource.conditions).0;
      assert Consistent(selected, podKill);
      RecordingIsConsistent(selected, podKill, resource.records.value, labels);
    }
  }

  /** Poll i changes the pods under test or their expected number. */
  ghost predicate Writes(podKill: bool, polls: seq<Observation>, i: nat)
    requires i < |polls|
  {
    var (s, s') := (After(NEW_SESSION, podKill, polls[..i]), After(NEW_SESSION, podKill, polls[..i + 1]));
    s.podsUnderTest != s'.podsUnderTest || s.podsExpectedMissing != s'.podsExpectedMissing
  }

  /** A poll that writes them is the one that first checks for them. */
  lemma WritesOnlyUnchecked(podKill: bool, polls: seq<Observation>, i: nat)
    requires i < |polls| && Writes(podKill, polls, i)
    ensures !After(NEW_SESSION, podKill, polls[..i]).checkedForMissingPods
    ensures After(NEW_SESSION, podKill, polls[..i + 1]).checkedForMissingPods
  {
    RunsAreConsistent(podKill, polls[..i]);
    RunsAreConsistent(podKill, polls[..i + 1]);
    RunExtends(NEW_SESSION, podKill, polls[..i + 1], i);
    assert polls[..i + 1][..i] == polls[..i];
  }

  /** At most one poll writes the pods under test and their expected number. */
  lemma TargetsWrittenOnce(podKill: bool, polls: seq<Observation>, i: nat, j: nat)
    requires i < j < |polls|
    ensures !(Writes(podKill, polls, i) && Writes(podKill, polls, j))
  {
    if Writes(podKill, polls, i) && Writes(podKill, polls, j) {
      WritesOnlyUnchecked(podKill, polls, i);
      RunExtends(NEW_SESSION, podKill, polls[..j], i + 1);
      assert polls[..j][..i + 1] == polls[..i + 1];
      WritesOnlyUnchecked(podKill, polls, j);
    }
  }

  // ---------------------------------------------------------------- which poll records, and what

  /** The poll finds a Selected condition. */
  ghost predicate ListsSelected(o: Observation) {
    o.resource.Ok? && o.resource.value.conditions.Some? && FirstSelected(o.resource.value.conditions.value).Some?
  }

  /** The first Selected condition it finds is true. */
  ghost predicate SelectionTrue(o: Observation) {
    ListsSelected(o) && FirstSelected(o.resource.value.conditions.value).value.status == "True"
  }

  /** Condition i is the first of type Selected. */
  ghost predicate IsFirstSelected(conditions: seq<Condition>, i: nat) {
    && i < |conditions| && conditions[i].kind == "Selected"
    && forall j :: 0 <= j < i ==> conditions[j].kind != "Selected"
  }

  lemma {:induction false} FirstSelectedIs(conditions: seq<Condition>) returns (i: nat)
    ensures if FirstSelected(conditions).Some? then
        IsFirstSelected(conditions, i) && conditions[i] == FirstSelected(conditions).value
      else forall c :: c in conditions ==> c.kind != "Selected"
  {
    i := 0;
    if conditions != [] && conditions[0].kind != "Selected" {
      var rest := FirstSelectedIs(conditions[1..]);
      i := rest + 1;
      assert conditions == [conditions[0]] + conditions[1..];
    }
  }

  /** What the two tests of a poll mean, in terms of its conditions. */
  lemma SelectionIff(o: Observation)
    requires o.resource.Ok? && o.resource.value.conditions.Some?
    ensures var conditions := o.resource.value.conditions.value;
      && (ListsSelected(o) <==> exists c :: c in conditions && c.kind == "Selected")
      && (SelectionTrue(o) <==>
            exists i: nat :: IsFirstSelected(conditions, i) && conditions[i].status == "True")
  {
    var conditions := o.resource.value.conditions.value;
    var i := FirstSelectedIs(conditions);
    if FirstSelected(conditions).Some? {
      assert conditions[i] in conditions;
      assert forall j: nat :: IsFirstSelected(conditions, j) ==> j == i;
    } else {
      assert forall j: nat :: j < |conditions| ==> conditions[j] in conditions;
    }
  }

  /** It finds records along with a Selected condition, whatever the status of that condition. */
  ghost predicate HasTargets(o: Observation) {
    ListsSelected(o) && o.resource.value.records.Some?
  }

  /** After such a poll no later one records targets. */
  ghost predicate Decides(o: Observation) {
    HasTargets(o) || SelectionTrue(o)
  }

  /** Poll i records the targets: it is the first that decides, and it has records. */
  ghost predicate IsRecording(polls: seq<Observation>, i: int) {
    && 0 <= i < |polls| && HasTargets(polls[i])
    && forall j :: 0 <= j < i ==> !Decides(polls[j])
  }

  ghost predicate SomeDecides(polls: seq<Observation>) {
    exists j :: 0 <= j < |polls| && Decides(polls[j])
  }

  ghost predicate SomeSelectionTrue(polls: seq<Observation>) {
    exists j :: 0 <= j < |polls| && SelectionTrue(polls[j])
  }

  /** The pods the poll records, none if a record id is malformed or a pod has no labels. */
  ghost function TargetsOf(podKill: bool, o: Observation): seq<PodUnderTest>
    requires HasTargets(o)
  {
    match InjectedPods(o.resource.value.records.value)
    case Err(_) => []
    case Ok(names) =>
      match PodsNamed(names, o.labels, podKill)
      case Err(_) => []
      case Ok(pods) => pods
  }

  /** The deaths it expects. */
  ghost function DeathsOf(podKill: bool, o: Observation): nat
    requires HasTargets(o)
  {
    match InjectedPods(o.resource.value.records.value)
    case Err(_) => 0
    case Ok(names) => if podKill then |names| else 0
  }

  lemma RecordingPoll(s: SessionState, podKill: bool, o: Observation)
    requires Consistent(s, podKill) && !s.checkedForMissingPods && HasTargets(o)
    ensures var r := RecordTargets(s, podKill, o.resource.value.records.value, o.labels).0;
      && r.checkedForMissingPods && r.targetSelectionCompleted == s.targetSelectionCompleted
      && r.podsUnderTest == TargetsOf(podKill, o) && r.podsExpectedMissing == DeathsOf(podKill, o)
  {
  }

  /** The poll makes the one call that records targets. */
  ghost predicate RecordsNow(s: SessionState, o: Observation) {
    !s.targetSelectionCompleted && !s.checkedForMissingPods && HasTargets(o)
  }

  /** What a poll does to target selection and recorded targets. */
  ghost predicate TargetsStep(s: SessionState, podKill: bool, o: Observation, r: SessionState) {
    && (r.targetSelectionCompleted <==> s.targetSelectionCompleted || SelectionTrue(o))
    && (r.checkedForMissingPods <==> s.checkedForMissingPods || RecordsNow(s, o))
    && r.podsUnderTest == (if RecordsNow(s, o) then TargetsOf(podKill, o) else s.podsUnderTest)
    && r.podsExpectedMissing == (if RecordsNow(s, o) then DeathsOf(podKill, o) else s.podsExpectedMissing)
  }

  lemma ReadTargets(s: SessionState, podKill: bool, o: Observation)
    requires Consistent(s, podKill) && o.resource.Ok?
    ensures TargetsStep(s, podKill, o, ReadRecords(s, podKill, o.resource.value, o.labels).0)
  {
    var (selected, record) := SelectTargets(s, o.resource.value.conditions);
    SelectStep(s, o);
    if RecordsNow(s, o) {
      RecordingPoll(selected, podKill, o);
    }
  }

  lemma SelectStep(s: SessionState, o: Observation)
    requires o.resource.Ok?
    ensures var (selected, record) := SelectTargets(s, o.resource.value.conditions);
      && selected == s.(targetSelectionCompleted := s.targetSelectionCompleted || SelectionTrue(o))
      && (record == Ok(true) <==> !s.targetSelectionCompleted && ListsSelected(o))
  {
  }

  lemma PollTargets(s: SessionState, podKill: bool, o: Observation)
    requires Consistent(s, podKill)
    ensures TargetsStep(s, podKill, o, Poll(s, podKill, o).0)
  {
    if o.resource.Ok? {
      ReadTargets(s, podKill, o);
    }
  }

  /** The state of a session after any sequence of polls, in terms of what they found: which poll recorded the
      targets, if any, and what it recorded. */
  lemma {:induction false} RecordedTargets(podKill: bool, polls: seq<Observation>)
    ensures var s := After(NEW_SESSION, podKill, polls);
      && (s.targetSelectionCompleted <==> SomeSelectionTrue(polls))
      && (s.targetSelectionCompleted || s.checkedForMissingPods <==> SomeDecides(polls))
      && (s.checkedForMissingPods <==> exists i :: IsRecording(polls, i))
      && (forall i :: IsRecording(polls, i) ==>
            s.podsUnderTest == TargetsOf(podKill, polls[i]) && s.podsExpectedMissing == DeathsOf(podKill, polls[i]))
      && (!s.checkedForMissingPods ==> s.podsUnderTest == [] && s.podsExpectedMissing == 0)
  {
    if polls != [] {
      var n := |polls| - 1;
      var before, o := polls[..n], polls[n];
      var s := After(NEW_SESSION, podKill, before);
      assert polls == before + [o];
      RecordedTargets(podKill, before);
      RunsAreConsistent(podKill, before);
      PollTargets(s, podKill, o);
      OneMoreDecides(before, o);
      if i :| IsRecording(before, i) {
        assert IsRecording(polls, i);
      }
      assert RecordsNow(s, o) ==> IsRecording(polls, n);
    }
  }

  lemma OneMoreDecides(before: seq<Observation>, o: Observation)
    ensures SomeSelectionTrue(before + [o]) <==> SomeSelectionTrue(before) || SelectionTrue(o)
    ensures SomeDecides(before + [o]) <==> SomeDecides(before) || Decides(o)
    ensures forall i :: IsRecording(before + [o], i) <==>
      IsRecording(before, i) || (i == |before| && HasTargets(o) && !SomeDecides(before))
  {
    var polls := before + [o];
    assert polls[|before|] == o && forall j :: 0 <= j < |before| ==> polls[j] == before[j];
  }

  // ---------------------------------------------------------------- which pods are recorded

  /** The record id consists of a namespace, the pod, and what follows. */
  ghost predicate NamesPod(id: string, pod: string) {
    exists namespace: string, rest: string ::
      '/' !in namespace && '/' !in pod && id == namespace + ['/'] + (pod + ['/'] + rest)
  }

  /** Splitting a record id finds its pod, for every id. */
  lemma PodOfId(id: string, pod: string)
    ensures |Split(id, '/')| > 2 && Split(id, '/')[1] == pod <==> NamesPod(id, pod)
  {
    var parts := Split(id, '/');
    if |parts| > 2 && parts[1] == pod {
      JoinSplit(id, '/');
      SplitParts(id, '/');
      assert id == parts[0] + ['/'] + (parts[1] + ['/'] + Join(parts[1..][1..], '/'));
    }
    if namespace: string, rest: string :|
      '/' !in namespace && '/' !in pod && id == namespace + ['/'] + (pod + ['/'] + rest)
    {
      SplitConcat(namespace, pod + ['/'] + rest, '/');
      SplitConcat(pod, rest, '/');
      JoinSplit(namespace, '/');
      JoinSplit(pod, '/');
      assert Split(namespace, '/') == [namespace] && Split(pod, '/') == [pod];
    }
  }

  /** The pod's fault was in place when the records were read. */
  ghost predicate InjectedIn(records: seq<Record>, pod: string) {
    exists r :: r in records && r.phase == "Injected" && NamesPod(r.id, pod)
  }

  ghost predicate HasPod(r: Record) {
    exists pod :: NamesPod(r.id, pod)
  }

  /** Every injected record names a pod, and the pod has labels. */
  ghost predicate WellFormed(o: Observation)
    requires HasTargets(o)
  {
    && (forall r :: r in o.resource.value.records.value && r.phase == "Injected" ==> HasPod(r))
    && (forall pod :: InjectedIn(o.resource.value.records.value, pod) ==> pod in o.labels)
  }

  lemma {:induction false} InjectedPodsIff(records: seq<Record>)
    ensures InjectedPods(records).Ok? <==> forall r :: r in records && r.phase == "Injected" ==> HasPod(r)
    ensures InjectedPods(records).Ok? ==>
      forall pod :: pod in InjectedPods(records).value <==> InjectedIn(records, pod)
  {
    if records != [] {
      var first, rest := records[0], records[1..];
      InjectedPodsIff(rest);
      assert records == [first] + rest;
      forall pod
        ensures |Split(first.id, '/')| > 2 && Split(first.id, '/')[1] == pod <==> NamesPod(first.id, pod)
      {
        PodOfId(first.id, pod);
      }
      if |Split(first.id, '/')| > 2 {
        assert NamesPod(first.id, Split(first.id, '/')[1]);
      }
      forall pod
        ensures InjectedIn(records, pod) <==>
          InjectedIn(rest, pod) || (first.phase == "Injected" && NamesPod(first.id, pod))
      {
      }
    }
  }

  lemma {:induction false} PodsNamedIff(
    names: seq<string>, labels: map<string, map<string, string>>, expectDeath: bool)
    ensures PodsNamed(names, labels, expectDeath).Ok? <==> forall name :: name in names ==> name in labels
  {
    if names != [] {
      PodsNamedIff(names[1..], labels, expectDeath);
      assert names == [names[0]] + names[1..];
    }
  }

  ghost function InjectedRecords(records: seq<Record>): seq<Record> {
    if records == [] then []
    else
      var last := records[|records| - 1];
      InjectedRecords(records[..|records| - 1]) + if last.phase == "Injected" then [last] else []
  }

  lemma {:induction false} InjectedRecordsIsFilter(records: seq<Record>)
    ensures IsFilter(records, InjectedRecords(records), (r: Record) => r.phase == "Injected")
  {
    var test := (r: Record) => r.phase == "Injected";
    if records == [] {
      NothingToFilter(test);
    } else {
      var n := |records| - 1;
      InjectedRecordsIsFilter(records[..n]);
      FilterSnoc(records[..n], InjectedRecords(records[..n]), test, records[n]);
      assert records == records[..n] + [records[n]];
    }
  }

  lemma {:induction false} InjectedRecordsCons(records: seq<Record>)
    requires records != []
    ensures InjectedRecords(records)
      == (if records[0].phase == "Injected" then [records[0]] else []) + InjectedRecords(records[1..])
  {
    var n := |records| - 1;
    if n == 0 {
      assert records[..0] == [] && records[1..] == [];
    } else {
      InjectedRecordsCons(records[..n]);
      assert records[..n][1..] == records[1..][..n - 1];
    }
  }

  /** Each name is the pod of the record at its place. */
  ghost predicate NamesEach(injected: seq<Record>, names: seq<string>) {
    && |injected| == |names|
    && forall k :: 0 <= k < |names| ==> NamesPod(injected[k].id, names[k])
  }

  lemma NamesEachCons(r: Record, injected: seq<Record>, name: string, names: seq<string>)
    requires NamesEach(injected, names) && NamesPod(r.id, name)
    ensures NamesEach([r] + injected, [name] + names)
  {
  }

  /** One name per injected record, in order. */
  lemma {:induction false} InjectedPodsInOrder(records: seq<Record>)
    requires InjectedPods(records).Ok?
    ensures NamesEach(InjectedRecords(records), InjectedPods(records).value)
  {
    if records != [] {
      var first, rest := records[0], records[1..];
      InjectedRecordsCons(records);
      if first.phase == "Injected" {
        InjectedPodsInOrder(rest);
        var name := Split(first.id, '/')[1];
        PodOfId(first.id, name);
        NamesEachCons(first, InjectedRecords(rest), name, InjectedPods(rest).value);
      } else {
        InjectedPodsInOrder(rest);
        assert [] + InjectedRecords(rest) == InjectedRecords(rest);
      }
    }
  }

  /** The pods recorded from a well-formed poll: one per injected record, in order, with the labels looked up then,
      expecting death exactly for a pod kill. */
  ghost predicate PodsOfRecords(pods: seq<PodUnderTest>, injected: seq<Record>, podKill: bool, o: Observation) {
    && |pods| == |injected|
    && forall k :: 0 <= k < |pods| ==>
         && NamesPod(injected[k].id, pods[k].name) && pods[k].name in o.labels
         && pods[k].labels == o.labels[pods[k].name]
         && (pods[k].expectDeath <==> podKill) && !pods[k].touchedByFault
  }

  /** What the recording poll of a run leaves, if its injected records are well formed. */
  lemma RecordedInOrder(podKill: bool, polls: seq<Observation>, i: nat) returns (injected: seq<Record>)
    requires IsRecording(polls, i) && WellFormed(polls[i])
    ensures IsFilter(polls[i].resource.value.records.value, injected, (r: Record) => r.phase == "Injected")
    ensures PodsOfRecords(After(NEW_SESSION, podKill, polls).podsUnderTest, injected, podKill, polls[i])
    ensures After(NEW_SESSION, podKill, polls).podsExpectedMissing == if podKill then |injected| else 0
  {
    var o := polls[i];
    var records := o.resource.value.records.value;
    RecordedTargets(podKill, polls);
    InjectedPodsIff(records);
    injected := InjectedRecords(records);
    InjectedRecordsIsFilter(records);
    InjectedPodsInOrder(records);
    var names := InjectedPods(records).value;
    PodsNamedIff(names, o.labels, podKill);
    PodsNamedExact(names, o.labels, podKill);
  }

  ghost predicate Recorded(s: SessionState, pod: string) {
    exists p :: p in s.podsUnderTest && p.name == pod
  }

  lemma TargetsOfIff(podKill: bool, o: Observation, pod: string)
    requires HasTargets(o)
    ensures (exists p :: p in TargetsOf(podKill, o) && p.name == pod)
      <==> WellFormed(o) && InjectedIn(o.resource.value.records.value, pod)
    ensures !WellFormed(o) ==> TargetsOf(podKill, o) == []
  {
    var names := InjectedPods(o.resource.value.records.value);
    InjectedPodsIff(o.resource.value.records.value);
    if names.Ok? {
      PodsNamedIff(names.value, o.labels, podKill);
      if PodsNamed(names.value, o.labels, podKill).Ok? {
        PodsNamedExact(names.value, o.labels, podKill);
        var pods := PodsNamed(names.value, o.labels, podKill).value;
        if pod in names.value {
          var i :| 0 <= i < |names.value| && names.value[i] == pod;
          assert pods[i] in pods && pods[i].name == pod;
        }
      }
    }
  }

  /** A session does not record every pod its fault hits. It records a pod exactly if some poll is the recording
      one, its injected records are well formed, and the pod was already injected there. */
  lemma PodRecordedIff(podKill: bool, polls: seq<Observation>, pod: string)
    ensures Recorded(After(NEW_SESSION, podKill, polls), pod) <==>
      exists i :: IsRecording(polls, i) && WellFormed(polls[i])
        && InjectedIn(polls[i].resource.value.records.value, pod)
  {
    RecordedTargets(podKill, polls);
    forall i | IsRecording(polls, i)
      ensures Recorded(After(NEW_SESSION, podKill, polls), pod) <==>
        WellFormed(polls[i]) && InjectedIn(polls[i].resource.value.records.value, pod)
      ensures forall j :: IsRecording(polls, j) ==> j == i
    {
      TargetsOfIff(podKill, polls[i], pod);
    }
  }

  /** A session without targets will never have any, whatever it polls later, exactly if some poll listed a
      Selected condition that was true or came with records. */
  lemma LostForGoodIff(podKill: bool, polls: seq<Observation>)
    requires After(NEW_SESSION, podKill, polls).podsUnderTest == []
    ensures (forall more: seq<Observation> :: After(NEW_SESSION, podKill, polls + more).podsUnderTest == [])
      <==> SomeDecides(polls)
  {
    if SomeDecides(polls) {
      forall more: seq<Observation>
        ensures After(NEW_SESSION, podKill, polls + more).podsUnderTest == []
      {
        StaysLost(podKill, polls, more);
      }
    } else {
      var o := InjectedPoll();
      OneMoreDecides(polls, o);
      assert IsRecording(polls + [o], |polls|);
      PodRecordedIff(podKill, polls + [o], "pod");
      assert Recorded(After(NEW_SESSION, podKill, polls + [o]), "pod");
    }
  }

  /** A poll that records a pod, if none has decided before. */
  lemma InjectedPoll() returns (o: Observation)
    ensures HasTargets(o) && WellFormed(o) && InjectedIn(o.resource.value.records.value, "pod")
  {
    var record := Record("a/pod/b", "Injected", 1, 0, []);
    o := Observation(Ok(Resource(Some([Condition("Selected", "True")]), Some([record]))), map["pod" := map[]]);
    OnePod(record, o);
  }

  lemma OnePod(record: Record, o: Observation)
    requires record.id == "a/pod/b" && record.phase == "Injected"
    requires HasTargets(o) && o.resource.value.records.value == [record] && o.labels == map["pod" := map[]]
    ensures WellFormed(o) && InjectedIn([record], "pod") && DeathsOf(true, o) == 1
  {
    IdOfOnePod();
    PodOfId(record.id, "pod");
    OneName(record, "pod");
    InjectedPodsIff([record]);
    assert InjectedPods([record]).value == ["pod"];
  }

  lemma IdOfOnePod()
    ensures NamesPod("a/pod/b", "pod")
  {
    assert "a/pod/b" == "a" + ['/'] + ("pod" + ['/'] + "b");
  }

  lemma OneName(record: Record, pod: string)
    requires record.phase == "Injected" && |Split(record.id, '/')| > 2 && Split(record.id, '/')[1] == pod
    ensures InjectedPods([record]) == Ok([pod])
  {
    assert [record][1..] == [] && InjectedPods([]) == Ok([]) && [pod] + [] == [pod];
    assert InjectedPods([record]) == Prepend([pod], InjectedPods([record][1..]));
  }

  lemma StaysLost(podKill: bool, polls: seq<Observation>, more: seq<Observation>)
    requires SomeDecides(polls) && After(NEW_SESSION, podKill, polls).podsUnderTest == []
    ensures After(NEW_SESSION, podKill, polls + more).podsUnderTest == []
  {
    var all := polls + more;
    RecordedTargets(podKill, polls);
    RecordedTargets(podKill, all);
    var j :| 0 <= j < |polls| && Decides(polls[j]);
    assert Decides(all[j]);
    forall i | IsRecording(all, i)
      ensures IsRecording(polls, i) && all[i] == polls[i]
    {
      assert i <= j;
      assert forall k :: 0 <= k < i ==> all[k] == polls[k];
    }
  }

  /** Three first polls that lose the targets for good: during selection; after it, with the pods not injected
      yet; and after it, with no records yet. A true Selected condition is no protection. */
  lemma EarlyPollLosesTargets(podKill: bool, id: string, more: seq<Observation>, first: Observation)
    requires var pending := Record(id, "Not Injected", 0, 0, []);
      var selecting := Observation(Ok(Resource(Some([Condition("Selected", "False")]), Some([]))), map[]);
      var injecting := Observation(Ok(Resource(Some([Condition("Selected", "True")]), Some([pending]))), map[]);
      var unlisted := Observation(Ok(Resource(Some([Condition("Selected", "True")]), None)), map[]);
      first == selecting || first == injecting || first == unlisted
    ensures After(NEW_SESSION, podKill, [first] + more).podsUnderTest == []
  {
    RecordedTargets(podKill, [first]);
    assert Decides([first][0]);
    if IsRecording([first], 0) {
      assert InjectedPods(first.resource.value.records.value) == Ok([]);
      assert TargetsOf(podKill, first) == [];
    }
    LostForGoodIff(podKill, [first]);
  }

  // ---------------------------------------------------------------- when a run panics

  /** Poll i gets as far as counting records: it reads them, the conditions are listed unless selection was
      complete before, and if it is the recording poll its injected records are well formed. */
  ghost predicate Counts(polls: seq<Observation>, i: nat)
    requires i < |polls|
  {
    && polls[i].resource.Ok? && polls[i].resource.value.records.Some?
    && (polls[i].resource.value.conditions.Some? || SomeSelectionTrue(polls[..i]))
    && (IsRecording(polls, i) ==> WellFormed(polls[i]))
  }

  ghost function RecordsAt(polls: seq<Observation>, i: nat): seq<Record>
    requires i < |polls| && Counts(polls, i)
  {
    polls[i].resource.value.records.value
  }

  lemma RecordingFailsIff(podKill: bool, s: SessionState, o: Observation)
    requires Consistent(s, podKill) && !s.checkedForMissingPods && HasTargets(o)
    ensures RecordTargets(s, podKill, o.resource.value.records.value, o.labels).1.Some? <==> !WellFormed(o)
  {
    var names := InjectedPods(o.resource.value.records.value);
    InjectedPodsIff(o.resource.value.records.value);
    if names.Ok? {
      PodsNamedIff(names.value, o.labels, podKill && names.value != []);
    }
  }

  /** When a session's records are read: its conditions are listed unless selection was complete before, and if
      the poll records targets they are well formed. */
  lemma ReadSucceedsIff(podKill: bool, s: SessionState, o: Observation)
    requires Consistent(s, podKill) && o.resource.Ok?
    ensures ReadRecords(s, podKill, o.resource.value, o.labels).1 == Ok(o.resource.value.records) <==>
      && (s.targetSelectionCompleted || o.resource.value.conditions.Some?)
      && (RecordsNow(s, o) ==> WellFormed(o))
  {
    var selected := SelectTargets(s, o.resource.value.conditions).0;
    if RecordsNow(s, o) {
      RecordingFailsIff(podKill, selected, o);
    }
  }

  lemma RecordsNowIff(podKill: bool, polls: seq<Observation>, i: nat)
    requires i < |polls|
    ensures RecordsNow(After(NEW_SESSION, podKill, polls[..i]), polls[i]) <==> IsRecording(polls, i)
  {
    RecordedTargets(podKill, polls[..i]);
    assert SomeDecides(polls[..i]) <==> exists j :: 0 <= j < i && Decides(polls[j]) by {
      assert forall j :: 0 <= j < i ==> polls[..i][j] == polls[j];
    }
  }

  /** The poll reads records exactly if it counts them. */
  lemma ReadsIff(podKill: bool, polls: seq<Observation>, i: nat)
    requires i < |polls| && polls[i].resource.Ok?
    ensures var o := polls[i];
      var r := ReadRecords(After(NEW_SESSION, podKill, polls[..i]), podKill, o.resource.value, o.labels).1;
      Counts(polls, i) <==> r == Ok(o.resource.value.records) && o.resource.value.records.Some?
  {
    RecordedTargets(podKill, polls[..i]);
    RunsAreConsistent(podKill, polls[..i]);
    RecordsNowIff(podKill, polls, i);
    ReadSucceedsIff(podKill, After(NEW_SESSION, podKill, polls[..i]), polls[i]);
  }

  /** A poll that does not count records reports Starting if there are none to count, and an error otherwise. */
  lemma UncountedIff(podKill: bool, polls: seq<Observation>, i: nat)
    requires i < |polls| && !Counts(polls, i)
    ensures var r := OutcomeAt(NEW_SESSION, podKill, polls, i);
      && (r == Reached(Starting) <==>
            && polls[i].resource.Ok? && polls[i].resource.value.records.None?
            && (polls[i].resource.value.conditions.Some? || SomeSelectionTrue(polls[..i])))
      && (r != Reached(Starting) ==> r.StatusError?)
      && (polls[i].resource.Err? ==> r == StatusError(polls[i].resource.error))
  {
    if polls[i].resource.Ok? {
      ReadsIff(podKill, polls, i);
      RecordedTargets(podKill, polls[..i]);
      RunsAreConsistent(podKill, polls[..i]);
      ReadSucceedsIff(podKill, After(NEW_SESSION, podKill, polls[..i]), polls[i]);
    }
  }

  /** What poll i reports, for every run of a session. */
  lemma OutcomeOfRun(podKill: bool, polls: seq<Observation>, i: nat)
    requires i < |polls|
    ensures var s := After(NEW_SESSION, podKill, polls[..i + 1]);
      var r := OutcomeAt(NEW_SESSION, podKill, polls, i);
      if Counts(polls, i) then r == ClassifyRecords(RecordsAt(polls, i), |s.podsFailingRecovery|, s.podsExpectedMissing)
      else r.StatusError? || r == Reached(Starting)
  {
    assert polls[..i + 1][..i] == polls[..i];
    if polls[i].resource.Ok? {
      ReadsIff(podKill, polls, i);
    }
  }

  /** The positions of the records that meet a test. */
  ghost function Where(records: seq<Record>, p: Record -> bool): set<int> {
    set i | 0 <= i < |records| && p(records[i])
  }

  lemma {:induction false} CountIs(records: seq<Record>, p: Record -> bool)
    ensures CountIf(records, p) == |Where(records, p)|
  {
    if records == [] {
      assert Where(records, p) == {};
    } else {
      var n := |records| - 1;
      CountIs(records[..n], p);
      assert Where(records, p) == Where(records[..n], p) + if p(records[n]) then {n} else {};
    }
  }

  lemma WhereEmptyIff(records: seq<Record>, p: Record -> bool)
    ensures |Where(records, p)| == 0 <==> forall r :: r in records ==> !p(r)
  {
    if r :| r in records && p(r) {
      var i :| 0 <= i < |records| && records[i] == r;
      assert i in Where(records, p);
    }
    if Where(records, p) != {} {
      var i :| i in Where(records, p);
      assert records[i] in records;
    }
  }

  ghost predicate AllInjected(records: seq<Record>) {
    forall r :: r in records ==> r.injectedCount != 0
  }

  ghost predicate SomeRecovered(records: seq<Record>) {
    exists r :: r in records && r.injectedCount != 0 && r.injectedCount == r.recoveredCount
  }

  /** The positions of the records whose fault has not been undone as often as it was injected. */
  ghost function Outstanding(records: seq<Record>): set<int> {
    set i | 0 <= i < |records| && records[i].injectedCount != 0 && records[i].injectedCount != records[i].recoveredCount
  }

  lemma CountsMean(records: seq<Record>)
    ensures CountIf(records, NotInjected) == 0 <==> AllInjected(records)
    ensures CountIf(records, Recovered) > 0 <==> SomeRecovered(records)
    ensures CountIf(records, NotRecovered) == |Outstanding(records)|
  {
    CountIs(records, NotInjected);
    CountIs(records, Recovered);
    CountIs(records, NotRecovered);
    WhereEmptyIff(records, NotInjected);
    WhereEmptyIff(records, Recovered);
    assert Outstanding(records) == Where(records, NotRecovered);
  }

  /** The status of every poll of every run that counts records. With F failures known and m deaths expected it is
      Starting while some record is not injected; InProgress when all are, none has recovered and there are more than
      m; Completed when, otherwise, exactly F + m are outstanding; Stopping when some have recovered and another number
      is outstanding. */
  lemma StatusIff(podKill: bool, polls: seq<Observation>, i: nat)
    requires i < |polls| && Counts(polls, i)
    ensures var s := After(NEW_SESSION, podKill, polls[..i + 1]);
      var (F, m) := (|s.podsFailingRecovery|, s.podsExpectedMissing);
      var (rs, r) := (RecordsAt(polls, i), OutcomeAt(NEW_SESSION, podKill, polls, i));
      && (r == Reached(Starting) <==> !AllInjected(rs))
      && (r == Reached(InProgress) <==> AllInjected(rs) && !SomeRecovered(rs) && |rs| > m)
      && (r == Reached(Completed) <==>
            AllInjected(rs) && (SomeRecovered(rs) || |rs| <= m) && |Outstanding(rs)| == F + m)
      && (r == Reached(Stopping) <==>
            AllInjected(rs) && SomeRecovered(rs) && Outstanding(rs) != {} && |Outstanding(rs)| != F + m)
      && !r.StatusError?
  {
    var rs := RecordsAt(polls, i);
    OutcomeOfRun(podKill, polls, i);
    CountsAddUp(rs);
    CountsMean(rs);
    assert |Outstanding(rs)| == 0 <==> Outstanding(rs) == {};
  }

  /** The panic, for every poll of every run. */
  lemma RunPanicsIff(podKill: bool, polls: seq<Observation>, i: nat)
    requires i < |polls|
    ensures OutcomeAt(NEW_SESSION, podKill, polls, i) == InvalidState <==>
      && Counts(polls, i)
      && var s := After(NEW_SESSION, podKill, polls[..i + 1]);
         var (F, m) := (|s.podsFailingRecovery|, s.podsExpectedMissing);
         var rs := RecordsAt(polls, i);
         var (a, b) := (CountIf(rs, Recovered), CountIf(rs, NotRecovered));
         a + b == |rs| && b != F + m && ((a == 0 && b <= m) || (a > 0 && b == 0))
  {
    OutcomeOfRun(podKill, polls, i);
    if Counts(polls, i) {
      var s := After(NEW_SESSION, podKill, polls[..i + 1]);
      PanicsIff(RecordsAt(polls, i), |s.podsFailingRecovery|, s.podsExpectedMissing);
    }
  }

  lemma {:induction false} AllRecoveredCount(rs: seq<Record>)
    requires forall r :: r in rs ==> Recovered(r)
    ensures CountIf(rs, Recovered) == |rs| && CountIf(rs, NotRecovered) == 0
  {
    if rs != [] {
      AllRecoveredCount(rs[..|rs| - 1]);
      assert rs[|rs| - 1] in rs;
    }
  }

  /** When all records have recovered, the session is reported completed exactly if no recovery ever failed and
      no pod was expected to die; otherwise it panics. */
  lemma AllRecoveredIff(podKill: bool, polls: seq<Observation>, i: nat)
    requires i < |polls| && Counts(polls, i) && RecordsAt(polls, i) != []
    requires forall r :: r in RecordsAt(polls, i) ==> Recovered(r)
    ensures var s := After(NEW_SESSION, podKill, polls[..i + 1]);
      var calm := s.podsFailingRecovery == map[] && s.podsExpectedMissing == 0;
      OutcomeAt(NEW_SESSION, podKill, polls, i) == if calm then Reached(Completed) else InvalidState
  {
    var s := After(NEW_SESSION, podKill, polls[..i + 1]);
    OutcomeOfRun(podKill, polls, i);
    AllRecoveredCount(RecordsAt(polls, i));
    CountsAddUp(RecordsAt(polls, i));
    assert |s.podsFailingRecovery| == 0 <==> s.podsFailingRecovery == map[];
  }

  /** A failed recovery, once known, is never forgiven: a later poll whose records have all recovered panics. */
  lemma FailureThenRecoveryPanics(podKill: bool, polls: seq<Observation>, i: nat)
    requires i < |polls| && Counts(polls, i) && RecordsAt(polls, i) != []
    requires After(NEW_SESSION, podKill, polls[..i]).podsFailingRecovery != map[]
    requires forall r :: r in RecordsAt(polls, i) ==> Recovered(r)
    ensures OutcomeAt(NEW_SESSION, podKill, polls, i) == InvalidState
  {
    AllRecoveredIff(podKill, polls, i);
    RunExtends(NEW_SESSION, podKill, polls[..i + 1], i);
    assert polls[..i + 1][..i] == polls[..i];
    var m :| m in After(NEW_SESSION, podKill, polls[..i]).podsFailingRecovery;
    assert m in After(NEW_SESSION, podKill, polls[..i + 1]).podsFailingRecovery;
  }

  /** What is known to have failed, in terms of what the polls found. */
  lemma {:induction false} FailureKnownIff(podKill: bool, polls: seq<Observation>, message: string)
    ensures message in After(NEW_SESSION, podKill, polls).podsFailingRecovery
      <==> exists i: nat :: i < |polls| && Counts(polls, i) && FailsIn(RecordsAt(polls, i), message)
  {
    if polls != [] {
      var n := |polls| - 1;
      var before := polls[..n];
      FailureKnownIff(podKill, before, message);
      forall i: nat | i < n
        ensures Counts(polls, i) <==> Counts(before, i)
      {
        assert before[..i] == polls[..i];
        assert IsRecording(polls, i) <==> IsRecording(before, i);
      }
      PollFails(podKill, polls, n, message);
    }
  }

  ghost predicate FailsIn(records: seq<Record>, message: string) {
    exists r :: r in records && NotRecovered(r) && message in FailureMessages(r.events)
  }

  lemma {:induction false} FailureMessagesIff(events: seq<Event>, message: string)
    ensures message in FailureMessages(events)
      <==> exists e :: e in events && e.failed && e.recover && e.message == message
  {
    if events != [] {
      FailureMessagesIff(events[1..], message);
      assert events == [events[0]] + events[1..];
    }
  }

  /** A failure is reported by an event of a failed recovery of a record whose fault is still in place. */
  lemma FailsInIff(records: seq<Record>, message: string)
    ensures FailsIn(records, message) <==>
      exists r, e :: r in records && r.injectedCount != 0 && r.injectedCount != r.recoveredCount
        && e in r.events && e.failed && e.recover && e.message == message
  {
    forall r | r in records
      ensures message in FailureMessages(r.events)
        <==> exists e :: e in r.events && e.failed && e.recover && e.message == message
    {
      FailureMessagesIff(r.events, message);
    }
  }

  ghost predicate ReportedBy(records: seq<Record>, r: Record, message: string) {
    r in records && NotRecovered(r) && message in FailureMessages(r.events)
  }

  lemma {:induction false} FailuresAfterIff(failing: map<string, Record>, records: seq<Record>, message: string)
    ensures message in FailuresAfter(failing, records) <==> message in failing || FailsIn(records, message)
    ensures message in FailuresAfter(failing, records) && message !in failing ==>
      ReportedBy(records, FailuresAfter(failing, records)[message], message)
  {
    if records != [] {
      var before, last := records[..|records| - 1], records[|records| - 1];
      FailuresAfterIff(failing, before, message);
      assert records == before + [last];
    }
  }

  lemma PollFails(podKill: bool, polls: seq<Observation>, i: nat, message: string)
    requires i < |polls|
    ensures var s := After(NEW_SESSION, podKill, polls[..i]);
      message in Poll(s, podKill, polls[i]).0.podsFailingRecovery <==>
        message in s.podsFailingRecovery || (Counts(polls, i) && FailsIn(RecordsAt(polls, i), message))
  {
    var o, s := polls[i], After(NEW_SESSION, podKill, polls[..i]);
    if o.resource.Ok? {
      ReadsIff(podKill, polls, i);
      ReadExtends(s, podKill, o.resource.value, o.labels);
      if Counts(polls, i) {
        FailuresAfterIff(s.podsFailingRecovery, RecordsAt(polls, i), message);
      }
    }
  }

  /** A poll after target selection that finds one record. */
  function OneRecord(r: Record): Observation {
    Observation(Ok(Resource(Some([Condition("Selected", "True")]), Some([r]))), map["pod" := map[]])
  }

  /** For example: a killed pod is first reported completed, since its death is expected, and panics the session
      when its record reports a recovery after all. */
  lemma RecoveredKilledPodPanics()
    ensures var killed, recovered := Record("a/pod/b", "Injected", 1, 0, []), Record("a/pod/b", "Injected", 1, 1, []);
      var polls := [OneRecord(killed), OneRecord(recovered)];
      && OutcomeAt(NEW_SESSION, true, polls, 0) == Reached(Completed)
      && OutcomeAt(NEW_SESSION, true, polls, 1) == InvalidState
  {
    var killed, recovered := Record("a/pod/b", "Injected", 1, 0, []), Record("a/pod/b", "Injected", 1, 1, []);
    var polls := [OneRecord(killed), OneRecord(recovered)];
    assert ListsSelected(polls[0]) && ListsSelected(polls[1]);
    OnePod(killed, polls[0]);
    assert Decides(polls[0]);
    KilledPodRun(polls, killed, recovered);
  }

  lemma KilledPodRun(polls: seq<Observation>, killed: Record, recovered: Record)
    requires |polls| == 2 && HasTargets(polls[0]) && DeathsOf(true, polls[0]) == 1
    requires Counts(polls, 0) && RecordsAt(polls, 0) == [killed] && NotRecovered(killed) && killed.events == []
    requires Counts(polls, 1) && RecordsAt(polls, 1) == [recovered] && Recovered(recovered)
    ensures OutcomeAt(NEW_SESSION, true, polls, 0) == Reached(Completed)
    ensures OutcomeAt(NEW_SESSION, true, polls, 1) == InvalidState
  {
    OneDeathExpected(polls[..1]);
    OneDeathExpected(polls[..2]);
    NoFailuresInRun(true, polls[..1]);
    OutcomeOfRun(true, polls, 0);
    CountOneKilled(killed);
    AllRecoveredIff(true, polls, 1);
  }

  lemma CountOneKilled(r: Record)
    requires NotRecovered(r)
    ensures CountIf([r], Recovered) == 0 && CountIf([r], NotRecovered) == 1 && CountIf([r], NotInjected) == 0
  {
    assert [r][..0] == [];
    assert CountIf([r], Recovered) == 0;
    assert CountIf([r], NotRecovered) == 1;
    assert CountIf([r], NotInjected) == 0;
  }

  lemma OneDeathExpected(polls: seq<Observation>)
    requires polls != [] && HasTargets(polls[0]) && DeathsOf(true, polls[0]) == 1
    ensures After(NEW_SESSION, true, polls).podsExpectedMissing == 1
  {
    RecordedTargets(true, polls);
    assert IsRecording(polls, 0);
  }

  /** Records without events report no failure. */
  lemma NoFailuresInRun(podKill: bool, polls: seq<Observation>)
    requires forall i: nat :: i < |polls| && Counts(polls, i) ==>
      forall r :: r in RecordsAt(polls, i) ==> r.events == []
    ensures After(NEW_SESSION, podKill, polls).podsFailingRecovery == map[]
  {
    forall message
      ensures message !in After(NEW_SESSION, podKill, polls).podsFailingRecovery
    {
      FailureKnownIff(podKill, polls, message);
    }
  }

  // ---------------------------------------------------------------- progress

  function Rank(s: FaultStatus): nat {
    match s
    case Starting => 0
    case InProgress => 1
    case Stopping => 2
    case Completed => 3
  }

  /** The assumption on Chaos Mesh: injections and recoveries of a record count from 0 to 1, in that order. */
  ghost predicate InOrder(r: Record) {
    0 <= r.recoveredCount <= r.injectedCount <= 1
  }

  /** The record list is fixed once present, and no count goes back. */
  ghost predicate Advances(o: Observation, o': Observation)
    requires o.resource.Ok? && o'.resource.Ok?
  {
    (o.resource.value.records.Some? ==>
          && o'.resource.value.records.Some?
          && RecordsAdvance(o.resource.value.records.value, o'.resource.value.records.value))
  }

  /** Polls i and j read the resource, and the queries between them fail. */
  ghost predicate Successive(polls: seq<Observation>, i: nat, j: nat) {
    && i < j < |polls| && polls[i].resource.Ok? && polls[j].resource.Ok?
    && forall k :: i < k < j ==> polls[k].resource.Err?
  }

  /** Chaos Mesh makes progress between any two successive polls that read the resource, which starts out in
      order. */
  ghost predicate Progresses(polls: seq<Observation>) {
    && (forall i: nat, j: nat :: Successive(polls, i, j) ==> Advances(polls[i], polls[j]))
    && (forall o, r ::
          o in polls && o.resource.Ok? && o.resource.value.records.Some? && r in o.resource.value.records.value ==>
            InOrder(r))
  }

  ghost predicate RecordsAdvance(rs: seq<Record>, rs': seq<Record>) {
    && |rs| == |rs'|
    && (forall i :: 0 <= i < |rs| ==> InOrder(rs[i]) && InOrder(rs'[i]))
    && (forall i :: 0 <= i < |rs| ==>
         rs[i].injectedCount <= rs'[i].injectedCount && rs[i].recoveredCount <= rs'[i].recoveredCount)
  }

  lemma {:induction false} CountsAdvance(rs: seq<Record>, rs': seq<Record>)
    requires RecordsAdvance(rs, rs')
    ensures CountIf(rs, Recovered) <= CountIf(rs', Recovered)
    ensures CountIf(rs, NotInjected) >= CountIf(rs', NotInjected)
  {
    if rs != [] {
      CountsAdvance(rs[..|rs| - 1], rs'[..|rs'| - 1]);
    }
  }

  lemma RankAdvances(rs: seq<Record>, rs': seq<Record>)
    requires RecordsAdvance(rs, rs')
    ensures ClassifyRecords(rs, 0, 0).Reached? && ClassifyRecords(rs', 0, 0).Reached?
    ensures Rank(ClassifyRecords(rs, 0, 0).status) <= Rank(ClassifyRecords(rs', 0, 0).status)
  {
    CountsAdvance(rs, rs');
    CountsAddUp(rs);
    CountsAddUp(rs');
    PanicsIff(rs, 0, 0);
    PanicsIff(rs', 0, 0);
  }

  /** No poll of the sequence reports a failed recovery. */
  ghost predicate NoFailures(polls: seq<Observation>) {
    forall o :: o in polls && o.resource.Ok? && o.resource.value.records.Some? ==>
      forall r :: r in o.resource.value.records.value ==> FailureMessages(r.events) == {}
  }

  lemma {:induction false} NothingNoted(failing: map<string, Record>, records: seq<Record>)
    requires forall r :: r in records ==> FailureMessages(r.events) == {}
    ensures FailuresAfter(failing, records) == failing
  {
    if records != [] {
      NothingNoted(failing, records[..|records| - 1]);
      assert records[|records| - 1] in records;
    }
  }

  lemma PollNotesNothing(s: SessionState, o: Observation)
    requires s.podsFailingRecovery == map[] && NoFailures([o])
    ensures Poll(s, false, o).0.podsFailingRecovery == map[]
  {
    assert o in [o];
    if o.resource.Ok? {
      ReadExtends(s, false, o.resource.value, o.labels);
      if o.resource.value.records.Some? {
        NothingNoted(map[], o.resource.value.records.value);
      }
    }
  }

  lemma {:induction false} NoFailuresKnown(polls: seq<Observation>)
    requires NoFailures(polls)
    ensures After(NEW_SESSION, false, polls).podsFailingRecovery == map[]
    ensures After(NEW_SESSION, false, polls).podsExpectedMissing == 0
  {
    RunsAreConsistent(false, polls);
    if polls != [] {
      var n := |polls| - 1;
      NoFailuresKnown(polls[..n]);
      assert polls[n] in polls;
      PollNotesNothing(After(NEW_SESSION, false, polls[..n]), polls[n]);
    }
  }

  /** The status a poll without failures or expected deaths reports depends on its records only. */
  lemma StatusFromRecords(polls: seq<Observation>, i: nat)
    requires i < |polls| && NoFailures(polls) && polls[i].resource.Ok?
    requires OutcomeAt(NEW_SESSION, false, polls, i).Reached?
    ensures OutcomeAt(NEW_SESSION, false, polls, i) ==
      if polls[i].resource.value.records.None? then Reached(Starting)
      else ClassifyRecords(polls[i].resource.value.records.value, 0, 0)
  {
    NoFailuresKnown(polls[..i]);
    NoFailuresKnown(polls[..i + 1]);
    assert polls[..i + 1][..i] == polls[..i];
  }

  /** The last poll before j to read the resource. */
  lemma LastReadable(polls: seq<Observation>, i: nat, j: nat) returns (k: nat)
    requires i < j < |polls| && polls[i].resource.Ok? && polls[j].resource.Ok?
    ensures i <= k && Successive(polls, k, j)
  {
    k := j - 1;
    while polls[k].resource.Err?
      invariant i <= k < j
      invariant forall l :: k < l < j ==> polls[l].resource.Err?
      decreases k
    {
      k := k - 1;
    }
  }

  lemma {:induction false} AdvancesFurther(polls: seq<Observation>, i: nat, j: nat)
    requires i <= j < |polls| && polls[i].resource.Ok? && polls[j].resource.Ok? && Progresses(polls)
    ensures Advances(polls[i], polls[j])
    decreases j
  {
    if i < j {
      var k := LastReadable(polls, i, j);
      AdvancesFurther(polls, i, k);
      assert Advances(polls[k], polls[j]);
    } else {
      assert polls[i] in polls;
    }
  }

  /** For a fault that kills no pods and no failed recoveries, the statuses reported by a session follow
      Starting, InProgress, Stopping, Completed; none is left for an earlier one, and Completed is final, even
      if queries fail in between. */
  lemma StatusNeverGoesBack(polls: seq<Observation>, i: nat, j: nat)
    requires i <= j < |polls| && NoFailures(polls) && Progresses(polls)
    requires OutcomeAt(NEW_SESSION, false, polls, i).Reached? && OutcomeAt(NEW_SESSION, false, polls, j).Reached?
    ensures Rank(OutcomeAt(NEW_SESSION, false, polls, i).status) <= Rank(OutcomeAt(NEW_SESSION, false, polls, j).status)
  {
    AdvancesFurther(polls, i, j);
    StatusFromRecords(polls, i);
    StatusFromRecords(polls, j);
    if polls[i].resource.value.records.Some? {
      RankAdvances(polls[i].resource.value.records.value, polls[j].resource.value.records.value);
    }
  }
}
