/** Which pods are health-checked: the lookup of CreateEthNetworkChecker (network_checker.go) and
    getPodsToHealthCheck (util.go). */
module HealthCheckSet {
  import opened Common
  import opened FaultSessions
  import opened TestExecution

  /** A pod as the health checks see it. */
  datatype KubePod = KubePod(name: string, labels: map<string, string>)

  predicate MatchesLabel(labels: map<string, string>, key: string, value: string) {
    key in labels && labels[key] == value
  }

  function AsKubePod(p: PodUnderTest): KubePod { KubePod(p.name, p.labels) }

  /** The faulted pods worth checking: matching the label and not expected to die. */
  ghost predicate Survives(p: PodUnderTest, key: string, value: string) {
    key in p.labels && p.labels[key] == value && !p.expectDeath
  }

  method CreateLookup(podsUnderTest: seq<PodUnderTest>) returns (lookup: map<string, PodUnderTest>)
    ensures lookup.Keys == Names(podsUnderTest)
    ensures forall name :: name in lookup ==> lookup[name] in podsUnderTest && lookup[name].name == name
  {
    lookup := map[];
    for i := 0 to |podsUnderTest|
      invariant lookup.Keys == Names(podsUnderTest[..i])
      invariant forall name :: name in lookup ==> lookup[name] in podsUnderTest && lookup[name].name == name
    {
      SnocPrefix(podsUnderTest, i);
      lookup := lookup[podsUnderTest[i].name := podsUnderTest[i]];
    }
    assert podsUnderTest[..|podsUnderTest|] == podsUnderTest;
  }

  ghost function Survivors(pods: seq<PodUnderTest>, key: string, value: string): seq<KubePod> {
    if pods == [] then []
    else
      Survivors(pods[..|pods| - 1], key, value)
      + if Survives(pods[|pods| - 1], key, value) then [AsKubePod(pods[|pods| - 1])] else []
  }

  ghost function Outside(pods: seq<KubePod>, names: set<string>): seq<KubePod> {
    if pods == [] then []
    else Outside(pods[..|pods| - 1], names) + if pods[|pods| - 1].name in names then [] else [pods[|pods| - 1]]
  }

  /** `bystanders` is the answer of Kubernetes to the label query. */
  method GetPodsToHealthCheck(
    podsUnderTest: seq<PodUnderTest>, lookup: map<string, PodUnderTest>, key: string, value: string,
    bystanders: Result<seq<KubePod>, string>)
    returns (r: Result<seq<KubePod>, string>)
    ensures bystanders.Err? ==> r == Err(bystanders.error)
    ensures bystanders.Ok? ==>
      r == Ok(Survivors(podsUnderTest, key, value) + Outside(bystanders.value, lookup.Keys))
  {
    var pods: seq<KubePod> := [];
    for i := 0 to |podsUnderTest|
      invariant pods == Survivors(podsUnderTest[..i], key, value)
    {
      assert podsUnderTest[..i + 1][..i] == podsUnderTest[..i];
      if MatchesLabel(podsUnderTest[i].labels, key, value) && !podsUnderTest[i].expectDeath {
        pods := pods + [AsKubePod(podsUnderTest[i])];
      }
    }
    assert podsUnderTest[..|podsUnderTest|] == podsUnderTest;
    if bystanders.Err? {
      return Err(bystanders.error);
    }
    ghost var faulted := pods;
    assert faulted + [] == faulted;
    for i := 0 to |bystanders.value|
      invariant pods == faulted + Outside(bystanders.value[..i], lookup.Keys)
    {
      assert bystanders.value[..i + 1][..i] == bystanders.value[..i];
      if bystanders.value[i].name !in lookup {
        pods := pods + [bystanders.value[i]];
      }
    }
    assert bystanders.value[..|bystanders.value|] == bystanders.value;
    return Ok(pods);
  }

  // ---------------------------------------------------------------- the set is exact

  ghost predicate DistinctNames(pods: seq<KubePod>) {
    forall i, j :: 0 <= i < j < |pods| ==> pods[i].name != pods[j].name
  }

  ghost predicate DistinctPods(pods: seq<PodUnderTest>) {
    forall i, j :: 0 <= i < j < |pods| ==> pods[i].name != pods[j].name
  }

  lemma {:induction false} SurvivorsExact(pods: seq<PodUnderTest>, key: string, value: string)
    requires DistinctPods(pods)
    ensures DistinctNames(Survivors(pods, key, value))
    ensures forall q :: q in Survivors(pods, key, value) <==>
      exists p :: p in pods && Survives(p, key, value) && q == AsKubePod(p)
  {
    if pods != [] {
      var before, last := pods[..|pods| - 1], pods[|pods| - 1];
      SurvivorsExact(before, key, value);
      assert pods == before + [last];
      assert forall p :: p in before ==> p.name != last.name;
      assert forall q :: q in Survivors(before, key, value) ==> q.name != last.name;
    }
  }

  lemma {:induction false} OutsideExact(pods: seq<KubePod>, names: set<string>)
    requires DistinctNames(pods)
    ensures DistinctNames(Outside(pods, names))
    ensures forall q :: q in Outside(pods, names) <==> q in pods && q.name !in names
  {
    if pods != [] {
      var before, last := pods[..|pods| - 1], pods[|pods| - 1];
      OutsideExact(before, names);
      assert pods == before + [last];
      assert forall q :: q in before ==> q.name != last.name;
    }
  }

  ghost function AsKubePods(pods: seq<PodUnderTest>): (k: seq<KubePod>)
    ensures |k| == |pods| && forall i :: 0 <= i < |k| ==> k[i].name == pods[i].name && k[i].labels == pods[i].labels
  {
    seq(|pods|, i requires 0 <= i < |pods| => KubePod(pods[i].name, pods[i].labels))
  }

  lemma {:induction false} SurvivorsInOrder(pods: seq<PodUnderTest>, key: string, value: string)
    returns (alive: seq<PodUnderTest>)
    ensures IsFilter(pods, alive, (p: PodUnderTest) => Survives(p, key, value))
    ensures Survivors(pods, key, value) == AsKubePods(alive)
  {
    var test := (p: PodUnderTest) => Survives(p, key, value);
    if pods == [] {
      alive := [];
      NothingToFilter(test);
    } else {
      var n := |pods| - 1;
      var before := SurvivorsInOrder(pods[..n], key, value);
      FilterSnoc(pods[..n], before, test, pods[n]);
      assert pods == pods[..n] + [pods[n]];
      alive := before + if test(pods[n]) then [pods[n]] else [];
    }
  }

  lemma {:induction false} OutsideIsFilter(pods: seq<KubePod>, names: set<string>)
    ensures IsFilter(pods, Outside(pods, names), (q: KubePod) => q.name !in names)
  {
    var test := (q: KubePod) => q.name !in names;
    if pods == [] {
      NothingToFilter(test);
    } else {
      var n := |pods| - 1;
      OutsideIsFilter(pods[..n], names);
      FilterSnoc(pods[..n], Outside(pods[..n], names), test, pods[n]);
      assert pods == pods[..n] + [pods[n]];
    }
  }

  /** The pods are checked in order: the faulted ones first, then the bystanders. */
  lemma CheckedInOrder(
    faulted: seq<PodUnderTest>, key: string, value: string, bystanders: seq<KubePod>, names: set<string>)
    returns (alive: seq<PodUnderTest>, others: seq<KubePod>)
    ensures IsFilter(faulted, alive, (p: PodUnderTest) => Survives(p, key, value))
    ensures IsFilter(bystanders, others, (q: KubePod) => q.name !in names)
    ensures Survivors(faulted, key, value) + Outside(bystanders, names) == AsKubePods(alive) + others
  {
    alive := SurvivorsInOrder(faulted, key, value);
    others := Outside(bystanders, names);
    OutsideIsFilter(bystanders, names);
  }

  /** From the pods of all fault sessions to the pods checked: no name is checked twice, and the checked pods are
      exactly the faulted ones that match the label and, as their first session saw them, should survive,
      and the bystanders that no session touched. */
  lemma HealthCheckSetIsExact(
    all: seq<PodUnderTest>, key: string, value: string, bystanders: seq<KubePod>)
    requires DistinctNames(bystanders)
    ensures var faulted := FirstAppearances(all);
      var checked := Survivors(faulted, key, value) + Outside(bystanders, Names(faulted));
      && DistinctNames(checked)
      && forall q :: q in checked <==>
           || (exists p :: p in all && IsFirst(all, p) && Survives(p, key, value) && q == AsKubePod(p))
           || (q in bystanders && q.name !in Names(all))
  {
    var faulted := FirstAppearances(all);
    FirstAppearancesExact(all);
    FirstsAreAll(all);
    SurvivorsExact(faulted, key, value);
    OutsideExact(bystanders, Names(faulted));
    var a, b := Survivors(faulted, key, value), Outside(bystanders, Names(faulted));
    forall q | q in a
      ensures q.name in Names(faulted)
    {
      var p :| p in faulted && Survives(p, key, value) && q == AsKubePod(p);
    }
    JoinDistinct(a, b);
  }

  lemma JoinDistinct(a: seq<KubePod>, b: seq<KubePod>)
    requires DistinctNames(a) && DistinctNames(b)
    requires forall p, q :: p in a && q in b ==> p.name != q.name
    ensures DistinctNames(a + b)
  {
    forall i, j | 0 <= i < j < |a + b|
      ensures (a + b)[i].name != (a + b)[j].name
    {
      if i < |a| <= j {
        assert a[i] in a && b[j - |a|] in b;
      }
    }
  }

  /** The returned pods are the first of each name, and have distinct names. */
  lemma FirstsAreAll(all: seq<PodUnderTest>)
    ensures DistinctPods(FirstAppearances(all))
    ensures forall p :: p in FirstAppearances(all) <==> p in all && IsFirst(all, p)
  {
    FirstAppearancesExact(all);
    var r := FirstAppearances(all);
    forall k, l | 0 <= k < l < |r|
      ensures r[k].name != r[l].name
    {
      assert Before(all, r[k], r[l]);
    }
    forall p | p in all && IsFirst(all, p)
      ensures p in r
    {
      assert p.name in Names(r);
      var q :| q in r && q.name == p.name;
      assert IsFirst(all, q);
    }
  }
}
