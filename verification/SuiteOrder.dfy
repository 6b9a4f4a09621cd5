/** Which test of a generated suite stands where. */
module SuiteOrder {
  import opened Common
  import opened Targeting
  import opened Suite
  import opened SuiteProofs

  /** Attack size i is the first to come to its number of targets, and that was not met before. */
  ghost predicate IsNew(
    req: SuiteRequest, dimension: TargetingSpec, sizes: seq<AttackSize>, tested: set<nat>, i: nat)
  {
    && i < |sizes| && Chooses(req, dimension, sizes[i])
    && |TargetsOf(req, dimension, sizes[i])| !in tested
    && forall j :: 0 <= j < i && Chooses(req, dimension, sizes[j]) ==>
         |TargetsOf(req, dimension, sizes[j])| != |TargetsOf(req, dimension, sizes[i])|
  }

  /** `places` lists the new attack sizes in order. */
  ghost predicate NewAt(
    req: SuiteRequest, dimension: TargetingSpec, sizes: seq<AttackSize>, tested: set<nat>, places: seq<nat>)
  {
    && (forall k, l :: 0 <= k < l < |places| ==> places[k] < places[l])
    && (forall i: nat :: i in places <==> IsNew(req, dimension, sizes, tested, i))
  }

  lemma TargetsAreCounted(req: SuiteRequest, dimension: TargetingSpec, size: AttackSize, tested: set<nat>)
    ensures TestedAfter(req, dimension, size, tested)
      == tested + if Chooses(req, dimension, size) then {|TargetsOf(req, dimension, size)|} else {}
  {
  }

  lemma NewAfterFirst(
    req: SuiteRequest, dimension: TargetingSpec, sizes: seq<AttackSize>, tested: set<nat>, i: nat)
    requires sizes != []
    ensures IsNew(req, dimension, sizes, tested, i + 1)
      <==> IsNew(req, dimension, sizes[1..], TestedAfter(req, dimension, sizes[0], tested), i)
  {
    hide TargetsOf, SelectorsFor, TestedAfter;
    TargetsAreCounted(req, dimension, sizes[0], tested);
    var rest := sizes[1..];
    if i < |rest| {
      assert rest[i] == sizes[i + 1];
      if IsNew(req, dimension, rest, TestedAfter(req, dimension, sizes[0], tested), i) {
        forall j | 0 <= j < i + 1 && Chooses(req, dimension, sizes[j])
          ensures |TargetsOf(req, dimension, sizes[j])| != |TargetsOf(req, dimension, sizes[i + 1])|
        {
          assert j > 0 ==> sizes[j] == rest[j - 1];
        }
      }
      if IsNew(req, dimension, sizes, tested, i + 1) {
        assert Chooses(req, dimension, sizes[0]) ==>
          |TargetsOf(req, dimension, sizes[0])| != |TargetsOf(req, dimension, sizes[i + 1])|;
      }
    }
  }

  ghost function Shifted(places: seq<nat>): (s: seq<nat>)
    ensures |s| == |places| && forall k :: 0 <= k < |s| ==> s[k] == places[k] + 1
  {
    seq(|places|, k requires 0 <= k < |places| => places[k] + 1)
  }

  /** The places of the new attack sizes, given those among the later ones. */
  ghost function WithFirst(isNew: bool, places: seq<nat>): (p: seq<nat>)
    ensures forall i: nat :: i + 1 in p <==> i in places
    ensures 0 in p <==> isNew
  {
    var p := (if isNew then [0] else []) + Shifted(places);
    var shift := if isNew then 1 else 0;
    assert forall k :: 0 <= k < |places| ==> p[k + shift] == places[k] + 1;
    p
  }

  lemma NewCons(
    req: SuiteRequest, dimension: TargetingSpec, sizes: seq<AttackSize>, tested: set<nat>, places: seq<nat>)
    requires sizes != []
    requires NewAt(req, dimension, sizes[1..], TestedAfter(req, dimension, sizes[0], tested), places)
    ensures NewAt(req, dimension, sizes, tested, WithFirst(IsNew(req, dimension, sizes, tested, 0), places))
  {
    var p := WithFirst(IsNew(req, dimension, sizes, tested, 0), places);
    forall i: nat
      ensures i in p <==> IsNew(req, dimension, sizes, tested, i)
    {
      if i > 0 {
        NewAfterFirst(req, dimension, sizes, tested, i - 1);
        assert i - 1 + 1 in p <==> i - 1 in places;
      }
    }
  }

  /** The tests of attack size `size`, configuration by configuration. */
  ghost predicate TestsOf(
    req: SuiteRequest, dimension: TargetingSpec, size: AttackSize, configs: seq<FaultConfig>, tests: seq<SuiteTest>)
  {
    && |tests| == |configs|
    && forall c :: 0 <= c < |tests| ==> IsTestFor(req, dimension, size, configs[c], tests[c])
  }

  lemma {:induction false} TestsForExact(
    req: SuiteRequest, dimension: TargetingSpec, size: AttackSize, configs: seq<FaultConfig>)
    requires Chooses(req, dimension, size)
    requires TestsFor(req, dimension, size, TargetsOf(req, dimension, size), configs).Ok?
    ensures TestsOf(
      req, dimension, size, configs, TestsFor(req, dimension, size, TargetsOf(req, dimension, size), configs).value)
  {
    if configs != [] {
      TestsForExact(req, dimension, size, configs[1..]);
    }
  }

  /** Tests k * C up to (k + 1) * C, for C configurations, are those of the attack size. */
  ghost predicate BlockAt(
    req: SuiteRequest, dimension: TargetingSpec, size: AttackSize, tests: seq<SuiteTest>, k: nat)
  {
    var C := |req.configs|;
    && 0 <= k * C <= k * C + C <= |tests|
    && TestsOf(req, dimension, size, req.configs, tests[k * C..k * C + C])
  }

  /** The tests are those of the attack sizes at these places, one after the other. */
  ghost predicate Blocks(
    req: SuiteRequest, dimension: TargetingSpec, sizes: seq<AttackSize>, places: seq<nat>, tests: seq<SuiteTest>)
    requires forall k :: 0 <= k < |places| ==> places[k] < |sizes|
  {
    && |tests| == |places| * |req.configs|
    && forall k :: 0 <= k < |places| ==> BlockAt(req, dimension, sizes[places[k]], tests, k)
  }

  lemma PlacesInRange(
    req: SuiteRequest, dimension: TargetingSpec, sizes: seq<AttackSize>, tested: set<nat>, places: seq<nat>)
    requires NewAt(req, dimension, sizes, tested, places)
    ensures forall k :: 0 <= k < |places| ==> places[k] < |sizes|
  {
    forall k | 0 <= k < |places|
      ensures places[k] < |sizes|
    {
      assert places[k] in places;
      assert IsNew(req, dimension, sizes, tested, places[k]);
    }
  }

  lemma BlocksShift(
    req: SuiteRequest, dimension: TargetingSpec, sizes: seq<AttackSize>, places: seq<nat>, tests: seq<SuiteTest>)
    requires sizes != [] && forall k :: 0 <= k < |places| ==> places[k] < |sizes| - 1
    requires Blocks(req, dimension, sizes[1..], places, tests)
    ensures Blocks(req, dimension, sizes, Shifted(places), tests)
  {
    hide BlockAt;
    forall k | 0 <= k < |places|
      ensures BlockAt(req, dimension, sizes[Shifted(places)[k]], tests, k)
    {
      assert sizes[Shifted(places)[k]] == sizes[1..][places[k]];
    }
  }

  lemma BlockStart(k: nat, n: nat, C: nat)
    requires k < n
    ensures 0 <= k * C && k * C + C <= n * C && (k + 1) * C == k * C + C
  {
    assert (n - (k + 1)) * C >= 0;
    assert (n - (k + 1)) * C == n * C - (k + 1) * C;
    assert (k + 1) * C == k * C + C;
  }

  /** Block k of a list with a block in front is block k - 1 of the list. */
  lemma BlockBehind(block: seq<SuiteTest>, tests: seq<SuiteTest>, k: nat, n: nat, C: nat)
    requires |block| == C && |tests| == n * C && 1 <= k <= n
    ensures 0 <= (k - 1) * C && (k - 1) * C + C <= |tests| && 0 <= k * C && k * C + C <= |block + tests|
    ensures (block + tests)[k * C..k * C + C] == tests[(k - 1) * C..(k - 1) * C + C]
  {
    BlockStart(k - 1, n, C);
  }

  lemma BlocksCons(
    req: SuiteRequest, dimension: TargetingSpec, sizes: seq<AttackSize>, first: nat, places: seq<nat>,
    block: seq<SuiteTest>, tests: seq<SuiteTest>)
    requires first < |sizes| && forall k :: 0 <= k < |places| ==> places[k] < |sizes|
    requires |block| == |req.configs| && TestsOf(req, dimension, sizes[first], req.configs, block)
    requires Blocks(req, dimension, sizes, places, tests)
    ensures Blocks(req, dimension, sizes, [first] + places, block + tests)
  {
    hide BlockAt, TestsOf;
    MulSucc(|places|, |req.configs|);
    var all := [first] + places;
    forall k | 0 <= k < |all|
      ensures BlockAt(req, dimension, sizes[all[k]], block + tests, k)
    {
      if k == 0 {
        BlockInFront(req, dimension, sizes[first], block, tests);
      } else {
        assert BlockAt(req, dimension, sizes[places[k - 1]], tests, k - 1);
        BlockAtBehind(req, dimension, sizes[places[k - 1]], block, tests, k, |places|);
      }
    }
  }

  lemma BlockInFront(
    req: SuiteRequest, dimension: TargetingSpec, size: AttackSize, block: seq<SuiteTest>, tests: seq<SuiteTest>)
    requires |block| == |req.configs| && TestsOf(req, dimension, size, req.configs, block)
    ensures BlockAt(req, dimension, size, block + tests, 0)
  {
    hide TestsOf;
    assert (block + tests)[0..|req.configs|] == block;
  }

  lemma BlockAtBehind(
    req: SuiteRequest, dimension: TargetingSpec, size: AttackSize, block: seq<SuiteTest>, tests: seq<SuiteTest>,
    k: nat, n: nat)
    requires |block| == |req.configs| && |tests| == n * |req.configs| && 1 <= k <= n
    requires BlockAt(req, dimension, size, tests, k - 1)
    ensures BlockAt(req, dimension, size, block + tests, k)
  {
    hide TestsOf;
    BlockBehind(block, tests, k, n, |req.configs|);
  }

  /** The tests of a dimension: for each new attack size in turn, those of all configurations in turn. */
  lemma {:induction false} DimensionIsExact(
    req: SuiteRequest, dimension: TargetingSpec, sizes: seq<AttackSize>, tested: set<nat>) returns (places: seq<nat>)
    requires DimensionTests(req, dimension, sizes, tested).Ok?
    ensures NewAt(req, dimension, sizes, tested, places)
    ensures forall k :: 0 <= k < |places| ==> places[k] < |sizes|
    ensures Blocks(req, dimension, sizes, places, DimensionTests(req, dimension, sizes, tested).value)
    decreases |sizes|
  {
    hide Blocks, NewAt, TestsOf, IsTestFor, Chooses;
    if sizes == [] {
      places := [];
      NothingNew(req, dimension, tested);
    } else {
      var after := TestedAfter(req, dimension, sizes[0], tested);
      DimensionSplit(req, dimension, sizes, tested);
      var rest := DimensionIsExact(req, dimension, sizes[1..], after);
      var tests := DimensionTests(req, dimension, sizes[1..], after).value;
      places := WithFirst(IsNew(req, dimension, sizes, tested, 0), rest);
      NewCons(req, dimension, sizes, tested, rest);
      PlacesInRange(req, dimension, sizes, tested, places);
      BlocksShift(req, dimension, sizes, rest, tests);
      if IsNew(req, dimension, sizes, tested, 0) {
        FirstBlock(req, dimension, sizes, tested);
        BlocksCons(
          req, dimension, sizes, 0, Shifted(rest), SizeTests(req, dimension, sizes[0], tested).value, tests);
      } else {
        NoFirstBlock(req, dimension, sizes, tested);
        assert [] + Shifted(rest) == Shifted(rest) && [] + tests == tests;
      }
    }
  }

  lemma NothingNew(req: SuiteRequest, dimension: TargetingSpec, tested: set<nat>)
    ensures NewAt(req, dimension, [], tested, []) && Blocks(req, dimension, [], [], [])
  {
  }

  lemma DimensionSplit(req: SuiteRequest, dimension: TargetingSpec, sizes: seq<AttackSize>, tested: set<nat>)
    requires sizes != [] && DimensionTests(req, dimension, sizes, tested).Ok?
    ensures var after := TestedAfter(req, dimension, sizes[0], tested);
      && SizeTests(req, dimension, sizes[0], tested).Ok? && DimensionTests(req, dimension, sizes[1..], after).Ok?
      && DimensionTests(req, dimension, sizes, tested).value
           == SizeTests(req, dimension, sizes[0], tested).value
              + DimensionTests(req, dimension, sizes[1..], after).value
  {
  }

  lemma FirstBlock(req: SuiteRequest, dimension: TargetingSpec, sizes: seq<AttackSize>, tested: set<nat>)
    requires IsNew(req, dimension, sizes, tested, 0) && SizeTests(req, dimension, sizes[0], tested).Ok?
    ensures |SizeTests(req, dimension, sizes[0], tested).value| == |req.configs|
    ensures TestsOf(req, dimension, sizes[0], req.configs, SizeTests(req, dimension, sizes[0], tested).value)
  {
    TestsForExact(req, dimension, sizes[0], req.configs);
  }

  lemma NoFirstBlock(req: SuiteRequest, dimension: TargetingSpec, sizes: seq<AttackSize>, tested: set<nat>)
    requires sizes != [] && !IsNew(req, dimension, sizes, tested, 0)
    requires SizeTests(req, dimension, sizes[0], tested).Ok?
    ensures SizeTests(req, dimension, sizes[0], tested).value == []
  {
  }

  // ---------------------------------------------------------------- the whole suite

  /** Block d of the tests, of this length, is that of the dimension. */
  ghost predicate DimensionAt(
    req: SuiteRequest, dimension: TargetingSpec, places: seq<nat>, tests: seq<SuiteTest>, d: nat, length: nat)
    requires forall k :: 0 <= k < |places| ==> places[k] < |req.sizes|
  {
    && 0 <= d * length <= d * length + length <= |tests|
    && Blocks(req, dimension, req.sizes, places, tests[d * length..d * length + length])
  }

  /** The tests are those of the dimensions, one after the other. */
  ghost predicate DimensionBlocks(
    req: SuiteRequest, dimensions: seq<TargetingSpec>, places: seq<nat>, tests: seq<SuiteTest>, length: nat)
    requires forall k :: 0 <= k < |places| ==> places[k] < |req.sizes|
  {
    && |tests| == |dimensions| * length
    && forall d :: 0 <= d < |dimensions| ==> DimensionAt(req, dimensions[d], places, tests, d, length)
  }

  lemma DimensionBlocksCons(
    req: SuiteRequest, first: TargetingSpec, dimensions: seq<TargetingSpec>, places: seq<nat>,
    block: seq<SuiteTest>, tests: seq<SuiteTest>)
    requires forall k :: 0 <= k < |places| ==> places[k] < |req.sizes|
    requires Blocks(req, first, req.sizes, places, block)
    requires DimensionBlocks(req, dimensions, places, tests, |block|)
    ensures DimensionBlocks(req, [first] + dimensions, places, block + tests, |block|)
  {
    hide Blocks, DimensionAt;
    MulSucc(|dimensions|, |block|);
    var all := [first] + dimensions;
    forall d | 0 <= d < |all|
      ensures DimensionAt(req, all[d], places, block + tests, d, |block|)
    {
      if d == 0 {
        DimensionInFront(req, first, places, block, tests);
      } else {
        assert DimensionAt(req, dimensions[d - 1], places, tests, d - 1, |block|);
        DimensionBehind(req, dimensions[d - 1], places, block, tests, d, |dimensions|);
      }
    }
  }

  lemma DimensionInFront(
    req: SuiteRequest, dimension: TargetingSpec, places: seq<nat>, block: seq<SuiteTest>, tests: seq<SuiteTest>)
    requires forall k :: 0 <= k < |places| ==> places[k] < |req.sizes|
    requires Blocks(req, dimension, req.sizes, places, block)
    ensures DimensionAt(req, dimension, places, block + tests, 0, |block|)
  {
    hide Blocks;
    assert (block + tests)[0..|block|] == block;
  }

  lemma DimensionBehind(
    req: SuiteRequest, dimension: TargetingSpec, places: seq<nat>, block: seq<SuiteTest>, tests: seq<SuiteTest>,
    d: nat, n: nat)
    requires forall k :: 0 <= k < |places| ==> places[k] < |req.sizes|
    requires |tests| == n * |block| && 1 <= d <= n
    requires DimensionAt(req, dimension, places, tests, d - 1, |block|)
    ensures DimensionAt(req, dimension, places, block + tests, d, |block|)
  {
    hide Blocks;
    BlockBehind(block, tests, d, n, |block|);
  }

  /** Attack sizes are new in one dimension exactly if they are in another. */
  lemma NewInAll(req: SuiteRequest, d: TargetingSpec, d': TargetingSpec, sizes: seq<AttackSize>, i: nat)
    ensures IsNew(req, d, sizes, {}, i) <==> IsNew(req, d', sizes, {}, i)
  {
    forall j | 0 <= j < |sizes|
      ensures Chooses(req, d, sizes[j]) <==> Chooses(req, d', sizes[j])
      ensures Chooses(req, d, sizes[j]) ==> |TargetsOf(req, d, sizes[j])| == |TargetsOf(req, d', sizes[j])|
    {
      SameLength(req, d, d', sizes[j]);
    }
  }

  lemma SamePlaces(places: seq<nat>, places': seq<nat>)
    requires forall k, l :: 0 <= k < l < |places| ==> places[k] < places[l]
    requires forall k, l :: 0 <= k < l < |places'| ==> places'[k] < places'[l]
    requires forall i: nat :: i in places <==> i in places'
    ensures places == places'
  {
    var members: set<int> := set i | i in places;
    DistinctCount(places, members);
    DistinctCount(places', members);
    SameIncreasing(places, places');
  }

  lemma {:induction false} SameIncreasing(places: seq<nat>, places': seq<nat>)
    requires |places| == |places'| && forall i: nat :: i in places <==> i in places'
    requires forall k, l :: 0 <= k < l < |places| ==> places[k] < places[l]
    requires forall k, l :: 0 <= k < l < |places'| ==> places'[k] < places'[l]
    ensures places == places'
  {
    if places != [] {
      var n := |places| - 1;
      assert places[n] in places' && places'[n] in places;
      assert places[n] == places'[n];
      forall i: nat
        ensures i in places[..n] <==> i in places'[..n]
      {
        assert i in places[..n] <==> i in places && i != places[n];
        assert i in places'[..n] <==> i in places' && i != places'[n];
      }
      SameIncreasing(places[..n], places'[..n]);
    }
  }

  lemma OneDimensionExact(req: SuiteRequest, dimension: TargetingSpec, places: seq<nat>)
    requires DimensionTests(req, dimension, req.sizes, {}).Ok?
    requires NewAt(req, MatchingClient, req.sizes, {}, places)
    ensures forall k :: 0 <= k < |places| ==> places[k] < |req.sizes|
    ensures Blocks(req, dimension, req.sizes, places, DimensionTests(req, dimension, req.sizes, {}).value)
    ensures |DimensionTests(req, dimension, req.sizes, {}).value| == |places| * |req.configs|
  {
    var own := DimensionIsExact(req, dimension, req.sizes, {});
    forall i: nat
      ensures i in own <==> i in places
    {
      NewInAll(req, dimension, MatchingClient, req.sizes, i);
      assert i in own <==> IsNew(req, dimension, req.sizes, {}, i);
      assert i in places <==> IsNew(req, MatchingClient, req.sizes, {}, i);
    }
    SamePlaces(own, places);
  }

  lemma {:induction false} DimensionsExact(req: SuiteRequest, dimensions: seq<TargetingSpec>, places: seq<nat>)
    requires SuiteTests(req, dimensions).Ok?
    requires NewAt(req, MatchingClient, req.sizes, {}, places)
    requires forall k :: 0 <= k < |places| ==> places[k] < |req.sizes|
    ensures DimensionBlocks(req, dimensions, places, SuiteTests(req, dimensions).value, |places| * |req.configs|)
    ensures |SuiteTests(req, dimensions).value| == |dimensions| * (|places| * |req.configs|)
    decreases |dimensions|
  {
    hide Blocks, NewAt;
    if dimensions != [] {
      DimensionsExact(req, dimensions[1..], places);
      OneDimensionExact(req, dimensions[0], places);
      DimensionBlocksCons(
        req, dimensions[0], dimensions[1..], places, DimensionTests(req, dimensions[0], req.sizes, {}).value,
        SuiteTests(req, dimensions[1..]).value);
      assert dimensions == [dimensions[0]] + dimensions[1..];
    }
  }

  /** The places of the new attack sizes, whatever the tests. */
  lemma {:induction false} SomePlaces(
    req: SuiteRequest, dimension: TargetingSpec, sizes: seq<AttackSize>, tested: set<nat>) returns (places: seq<nat>)
    ensures NewAt(req, dimension, sizes, tested, places)
    decreases |sizes|
  {
    if sizes == [] {
      places := [];
    } else {
      var rest := SomePlaces(req, dimension, sizes[1..], TestedAfter(req, dimension, sizes[0], tested));
      places := WithFirst(IsNew(req, dimension, sizes, tested, 0), rest);
      NewCons(req, dimension, sizes, tested, rest);
    }
  }

  /** The test for dimension d, the k-th new attack size and configuration c stands where it belongs. */
  ghost predicate TestAt(
    req: SuiteRequest, dimensions: seq<TargetingSpec>, places: seq<nat>, tests: seq<SuiteTest>, d: nat, k: nat, c: nat)
    requires d < |dimensions| && k < |places| && c < |req.configs| && places[k] < |req.sizes|
  {
    var (P, C) := (|places| * |req.configs|, |req.configs|);
    && 0 <= d * P + (k * C + c) < |tests|
    && IsTestFor(req, dimensions[d], req.sizes[places[k]], req.configs[c], tests[d * P + (k * C + c)])
  }

  /** The whole suite, test by test: dimension by dimension, within it attack size by attack size, each the first that
      comes to its number of targets, and within that configuration by configuration. */
  lemma SuiteIsExact(req: SuiteRequest, dimensions: seq<TargetingSpec>) returns (places: seq<nat>)
    requires SuiteTests(req, dimensions).Ok?
    ensures NewAt(req, MatchingClient, req.sizes, {}, places)
    ensures forall k :: 0 <= k < |places| ==> places[k] < |req.sizes|
    ensures |SuiteTests(req, dimensions).value| == |dimensions| * (|places| * |req.configs|)
    ensures forall d: nat, k: nat, c: nat :: d < |dimensions| && k < |places| && c < |req.configs| ==>
      TestAt(req, dimensions, places, SuiteTests(req, dimensions).value, d, k, c)
  {
    hide TestAt, NewAt, DimensionBlocks;
    places := SomePlaces(req, MatchingClient, req.sizes, {});
    PlacesInRange(req, MatchingClient, req.sizes, {}, places);
    DimensionsExact(req, dimensions, places);
    forall d: nat, k: nat, c: nat | d < |dimensions| && k < |places| && c < |req.configs|
      ensures TestAt(req, dimensions, places, SuiteTests(req, dimensions).value, d, k, c)
    {
      TestInBlock(req, dimensions, places, SuiteTests(req, dimensions).value, d, k, c);
    }
  }

  lemma TestInBlock(
    req: SuiteRequest, dimensions: seq<TargetingSpec>, places: seq<nat>, tests: seq<SuiteTest>, d: nat, k: nat, c: nat)
    requires forall j :: 0 <= j < |places| ==> places[j] < |req.sizes|
    requires DimensionBlocks(req, dimensions, places, tests, |places| * |req.configs|)
    requires d < |dimensions| && k < |places| && c < |req.configs|
    ensures TestAt(req, dimensions, places, tests, d, k, c)
  {
    hide IsTestFor;
    var P, C := |places| * |req.configs|, |req.configs|;
    BlockStart(d, |dimensions|, P);
    BlockStart(k, |places|, C);
    assert DimensionAt(req, dimensions[d], places, tests, d, P);
    var own := tests[d * P..d * P + P];
    assert BlockAt(req, dimensions[d], req.sizes[places[k]], own, k);
    assert own[k * C..k * C + C][c] == own[k * C + c] == tests[d * P + (k * C + c)];
  }
}
