/** The two-level plurality vote of pkg/health/ethereum/consensus.go. */
module ForkConsensus {
  import opened Common

  /** A client's answer: the block it reports, by height and by hash. */
  datatype Vote = Vote(pod: string, height: nat, hash: string)

  datatype ForkOutcome = ForkOutcome(
    rightHeight: seq<Vote>, wrongHeight: seq<Vote>, rightHash: seq<Vote>, wrongHash: seq<Vote>)

  function Height(v: Vote): nat { v.height }

  function Hash(v: Vote): string { v.hash }

  ghost function KeysOf<K>(key: Vote -> K, votes: seq<Vote>): set<K> {
    set v | v in votes :: key(v)
  }

  /** The votes for one key, in voting order. */
  function VotesFor<K(==)>(key: Vote -> K, k: K, votes: seq<Vote>): seq<Vote> {
    if votes == [] then []
    else
      VotesFor(key, k, votes[..|votes| - 1])
      + if key(votes[|votes| - 1]) == k then [votes[|votes| - 1]] else []
  }

  /** How the loop over the vote map scores one group after another, in a given iteration order. */
  function Tally<K(==)>(key: Vote -> K, order: seq<K>, votes: seq<Vote>): (seq<Vote>, seq<Vote>) {
    if order == [] then ([], [])
    else
      var (best, rest) := Tally(key, order[..|order| - 1], votes);
      var group := VotesFor(key, order[|order| - 1], votes);
      if |group| > |best| then (group, rest + best) else (best, rest + group)
  }

  /** The four lists that come out when the height map and the hash map are ranged over in these orders. */
  function Determine(votes: seq<Vote>, heights: seq<nat>, hashes: seq<string>): ForkOutcome {
    var (right, wrong) := Tally(Height, heights, votes);
    var (rightHash, wrongHash) := Tally(Hash, hashes, right);
    ForkOutcome(right, wrong, rightHash, wrongHash)
  }

  /** The iteration orders Go may use: any order of the heights, then any order of the hashes at the winner. */
  ghost predicate Orders(votes: seq<Vote>, heights: seq<nat>, hashes: seq<string>) {
    && IsOrder(heights, KeysOf(Height, votes))
    && IsOrder(hashes, KeysOf(Hash, Tally(Height, heights, votes).0))
  }

  // ---------------------------------------------------------------- the code

  method GroupVotes<K(==)>(key: Vote -> K, votes: seq<Vote>) returns (groups: map<K, seq<Vote>>)
    ensures groups.Keys == KeysOf(key, votes)
    ensures forall k :: k in groups ==> groups[k] == VotesFor(key, k, votes)
  {
    groups := map[];
    for i := 0 to |votes|
      invariant groups.Keys == KeysOf(key, votes[..i])
      invariant forall k :: k in groups ==> groups[k] == VotesFor(key, k, votes[..i])
    {
      var k := key(votes[i]);
      SnocPrefix(votes, i);
      NoVotes(key, k, votes[..i]);
      groups := groups[k := (if k in groups then groups[k] else []) + [votes[i]]];
    }
    assert votes[..|votes|] == votes;
  }

  /** The scores are those of some order of the keys. */
  ghost predicate IsTally<K(!new)>(key: Vote -> K, votes: seq<Vote>, best: seq<Vote>, rest: seq<Vote>) {
    exists order: seq<K> :: IsOrder(order, KeysOf(key, votes)) && (best, rest) == Tally(key, order, votes)
  }

  /** The loop over a vote map, with the map's iteration order left open. */
  method Plurality<K(==, !new)>(ghost key: Vote -> K, groups: map<K, seq<Vote>>, ghost votes: seq<Vote>)
    returns (best: seq<Vote>, rest: seq<Vote>)
    requires groups.Keys == KeysOf(key, votes)
    requires forall k :: k in groups ==> groups[k] == VotesFor(key, k, votes)
    ensures IsTally(key, votes, best, rest)
  {
    best, rest := [], [];
    ghost var order: seq<K> := [];
    var bestVotes := 0;
    var left := groups.Keys;
    while left != {}
      invariant left <= groups.Keys
      invariant IsOrder(order, groups.Keys - left)
      invariant (best, rest) == Tally(key, order, votes)
      invariant bestVotes == |best|
      decreases left
    {
      var k :| k in left;
      assert (order + [k])[..|order|] == order;
      if |groups[k]| > bestVotes {
        if bestVotes != 0 {
          rest := rest + best;
        } else {
          assert rest + best == rest;
        }
        bestVotes, best := |groups[k]|, groups[k];
      } else {
        rest := rest + groups[k];
      }
      order, left := order + [k], left - {k};
    }
  }

  /** What the vote may come to, given that Go ranges over maps in any order. */
  ghost predicate IsOutcome(votes: seq<Vote>, out: ForkOutcome) {
    exists heights, hashes :: Orders(votes, heights, hashes) && out == Determine(votes, heights, hashes)
  }

  method DetermineForkConsensus(votes: seq<Vote>) returns (out: ForkOutcome)
    ensures IsOutcome(votes, out)
    ensures multiset(out.rightHeight) + multiset(out.wrongHeight) == multiset(votes)
    ensures multiset(out.rightHash) + multiset(out.wrongHash) == multiset(out.rightHeight)
  {
    var blockVotes := GroupVotes(Height, votes);
    var right, wrong := Plurality(Height, blockVotes, votes);
    var hashVotes := GroupVotes(Hash, right);
    var rightHash, wrongHash := Plurality(Hash, hashVotes, right);
    out := ForkOutcome(right, wrong, rightHash, wrongHash);
    ghost var heights :| IsOrder(heights, KeysOf(Height, votes)) && (right, wrong) == Tally(Height, heights, votes);
    ghost var hashes :| IsOrder(hashes, KeysOf(Hash, right)) && (rightHash, wrongHash) == Tally(Hash, hashes, right);
    TallyPartitions(Height, heights, votes);
    TallyPartitions(Hash, hashes, right);
    assert Orders(votes, heights, hashes);
  }

  // ---------------------------------------------------------------- groups

  lemma {:induction false} NoVotes<K>(key: Vote -> K, k: K, votes: seq<Vote>)
    ensures VotesFor(key, k, votes) == [] <==> k !in KeysOf(key, votes)
  {
    if votes != [] {
      var n := |votes| - 1;
      NoVotes(key, k, votes[..n]);
      SnocPrefix(votes, n);
      assert votes[..n + 1] == votes;
    }
  }

  /** Membership in a group, and the multiplicity of a vote within its group. */
  lemma {:induction false} VotesForExact<K>(key: Vote -> K, k: K, votes: seq<Vote>, v: Vote)
    ensures multiset(VotesFor(key, k, votes))[v] == if key(v) == k then multiset(votes)[v] else 0
  {
    if votes != [] {
      var n := |votes| - 1;
      VotesForExact(key, k, votes[..n], v);
      assert votes == votes[..n] + [votes[n]];
    }
  }

  lemma VotesForMembers<K>(key: Vote -> K, k: K, votes: seq<Vote>)
    ensures forall v :: v in VotesFor(key, k, votes) <==> v in votes && key(v) == k
  {
    forall v
      ensures v in VotesFor(key, k, votes) <==> v in votes && key(v) == k
    {
      VotesForExact(key, k, votes, v);
      assert v in VotesFor(key, k, votes) <==> v in multiset(VotesFor(key, k, votes));
      assert v in votes <==> v in multiset(votes);
    }
  }

  /** A group lists exactly the votes for its key, in voting order. */
  lemma {:induction false} VotesForIsFilter<K>(key: Vote -> K, k: K, votes: seq<Vote>)
    ensures IsFilter(votes, VotesFor(key, k, votes), (v: Vote) => key(v) == k)
  {
    var test := (v: Vote) => key(v) == k;
    if votes == [] {
      NothingToFilter(test);
    } else {
      var n := |votes| - 1;
      VotesForIsFilter(key, k, votes[..n]);
      FilterSnoc(votes[..n], VotesFor(key, k, votes[..n]), test, votes[n]);
      assert votes == votes[..n] + [votes[n]];
    }
  }

  /** A vote with key k is scored once k has been visited, and then exactly as often as it was cast. */
  lemma {:induction false} TallyExact<K>(key: Vote -> K, order: seq<K>, votes: seq<Vote>, v: Vote)
    requires NoDuplicates(order)
    ensures var (best, rest) := Tally(key, order, votes);
      multiset(best)[v] + multiset(rest)[v] == if key(v) in order then multiset(votes)[v] else 0
  {
    if order != [] {
      var n := |order| - 1;
      TallyExact(key, order[..n], votes, v);
      VotesForExact(key, order[n], votes, v);
      assert order == order[..n] + [order[n]];
    }
  }

  /** The winner is the first group, in iteration order, that no other group outnumbers. */
  ghost predicate WinsAt<K>(key: Vote -> K, order: seq<K>, votes: seq<Vote>, i: nat)
    requires i < |order|
  {
    && Tally(key, order, votes).0 == VotesFor(key, order[i], votes)
    && (forall j :: 0 <= j < |order| ==> |VotesFor(key, order[j], votes)| <= |VotesFor(key, order[i], votes)|)
    && (forall j :: 0 <= j < i ==> |VotesFor(key, order[j], votes)| < |VotesFor(key, order[i], votes)|)
  }

  lemma {:induction false} TallyWinner<K>(key: Vote -> K, order: seq<K>, votes: seq<Vote>) returns (i: nat)
    requires order != []
    requires forall k :: k in order ==> k in KeysOf(key, votes)
    ensures i < |order| && WinsAt(key, order, votes, i)
  {
    var n := |order| - 1;
    NoVotes(key, order[n], votes);
    if n == 0 {
      i := 0;
    } else {
      var j := TallyWinner(key, order[..n], votes);
      assert order[..n][j] == order[j];
      assert forall m :: 0 <= m < n ==> order[..n][m] == order[m];
      i := if |VotesFor(key, order[n], votes)| > |VotesFor(key, order[j], votes)| then n else j;
    }
  }

  // ---------------------------------------------------------------- results

  /** k has at least as many votes as any key. */
  ghost predicate IsPlurality<K(!new)>(key: Vote -> K, k: K, votes: seq<Vote>) {
    k in KeysOf(key, votes) && forall j :: |VotesFor(key, j, votes)| <= |VotesFor(key, k, votes)|
  }

  /** k has more votes than any other key. */
  ghost predicate IsStrictPlurality<K(!new)>(key: Vote -> K, k: K, votes: seq<Vote>) {
    k in KeysOf(key, votes) && forall j :: j != k ==> |VotesFor(key, j, votes)| < |VotesFor(key, k, votes)|
  }

  lemma TallyIsPlurality<K(!new)>(key: Vote -> K, order: seq<K>, votes: seq<Vote>) returns (k: K)
    requires votes != [] && IsOrder(order, KeysOf(key, votes))
    ensures IsPlurality(key, k, votes)
    ensures Tally(key, order, votes).0 == VotesFor(key, k, votes)
  {
    assert key(votes[0]) in KeysOf(key, votes);
    var i := TallyWinner(key, order, votes);
    k := order[i];
    forall j
      ensures |VotesFor(key, j, votes)| <= |VotesFor(key, k, votes)|
    {
      NoVotes(key, j, votes);
      if j in order {
        var m :| 0 <= m < |order| && order[m] == j;
      }
    }
  }

  lemma TallyPartitions<K>(key: Vote -> K, order: seq<K>, votes: seq<Vote>)
    requires IsOrder(order, KeysOf(key, votes))
    ensures var (best, rest) := Tally(key, order, votes);
      multiset(best) + multiset(rest) == multiset(votes)
  {
    var (best, rest) := Tally(key, order, votes);
    forall v
      ensures (multiset(best) + multiset(rest))[v] == multiset(votes)[v]
    {
      TallyExact(key, order, votes, v);
      if key(v) !in order {
        assert v !in votes;
        assert v !in multiset(votes);
      }
    }
  }

  /** For every iteration order, both levels split the votes without losing or duplicating any, the chosen
      height and hash are pluralities, and the lists of right votes are exactly the votes for them. */
  lemma ConsensusIsPlurality(votes: seq<Vote>, heights: seq<nat>, hashes: seq<string>)
    returns (height: nat, hash: string)
    requires votes != [] && Orders(votes, heights, hashes)
    ensures var out := Determine(votes, heights, hashes);
      && multiset(out.rightHeight) + multiset(out.wrongHeight) == multiset(votes)
      && multiset(out.rightHash) + multiset(out.wrongHash) == multiset(out.rightHeight)
      && IsPlurality(Height, height, votes) && out.rightHeight == VotesFor(Height, height, votes)
      && IsPlurality(Hash, hash, out.rightHeight) && out.rightHash == VotesFor(Hash, hash, out.rightHeight)
      && (forall v :: v in out.rightHeight ==> v.height == height)
      && (forall v :: v in out.wrongHeight ==> v.height != height)
      && (forall v :: v in out.rightHash ==> v.height == height && v.hash == hash)
      && (forall v :: v in out.wrongHash ==> v.height == height && v.hash != hash)
      && out.rightHash != []
  {
    var out := Determine(votes, heights, hashes);
    height := TallyIsPlurality(Height, heights, votes);
    TallyPartitions(Height, heights, votes);
    NoVotes(Height, height, votes);
    RestDiffers(Height, heights, votes, height);
    hash := TallyIsPlurality(Hash, hashes, out.rightHeight);
    TallyPartitions(Hash, hashes, out.rightHeight);
    NoVotes(Hash, hash, out.rightHeight);
    RestDiffers(Hash, hashes, out.rightHeight, hash);
    VotesForMembers(Height, height, votes);
    VotesForMembers(Hash, hash, out.rightHeight);
    forall v | v in out.wrongHash
      ensures v in out.rightHeight
    {
      assert v in multiset(out.wrongHash);
      assert v in multiset(out.rightHeight);
    }
  }

  /** No vote for the winning key is left among the losing votes. */
  lemma RestDiffers<K(!new)>(key: Vote -> K, order: seq<K>, votes: seq<Vote>, k: K)
    requires IsOrder(order, KeysOf(key, votes))
    requires Tally(key, order, votes).0 == VotesFor(key, k, votes)
    ensures forall v :: v in Tally(key, order, votes).1 ==> key(v) != k
  {
    var (best, rest) := Tally(key, order, votes);
    TallyPartitions(key, order, votes);
    forall v | v in rest
      ensures key(v) != k
    {
      VotesForExact(key, k, votes, v);
      assert v in multiset(rest);
      assert (multiset(best) + multiset(rest))[v] == multiset(votes)[v];
    }
  }

  // ---------------------------------------------------------------- the iteration order

  lemma FirstVisitedWins<K(!new)>(key: Vote -> K, order: seq<K>, votes: seq<Vote>)
    requires order != [] && IsOrder(order, KeysOf(key, votes)) && IsPlurality(key, order[0], votes)
    ensures Tally(key, order, votes).0 == VotesFor(key, order[0], votes)
  {
    var i := TallyWinner(key, order, votes);
  }

  /** Whatever height is tied for the lead, and whatever hash is tied for the lead at that height, some
      iteration order reports them as the consensus. */
  lemma EveryTieCanWin(votes: seq<Vote>, height: nat, hash: string)
    returns (heights: seq<nat>, hashes: seq<string>)
    requires IsPlurality(Height, height, votes)
    requires IsPlurality(Hash, hash, VotesFor(Height, height, votes))
    ensures Orders(votes, heights, hashes)
    ensures Determine(votes, heights, hashes).rightHeight == VotesFor(Height, height, votes)
    ensures Determine(votes, heights, hashes).rightHash == VotesFor(Hash, hash, VotesFor(Height, height, votes))
  {
    heights := OrderStartingWith(height, KeysOf(Height, votes));
    FirstVisitedWins(Height, heights, votes);
    var right := VotesFor(Height, height, votes);
    hashes := OrderStartingWith(hash, KeysOf(Hash, right));
    FirstVisitedWins(Hash, hashes, right);
  }

  /** The consensus lists agree, and the losing votes agree up to their order. */
  ghost predicate SameOutcome(a: ForkOutcome, b: ForkOutcome) {
    && a.rightHeight == b.rightHeight && multiset(a.wrongHeight) == multiset(b.wrongHeight)
    && a.rightHash == b.rightHash && multiset(a.wrongHash) == multiset(b.wrongHash)
  }

  ghost predicate OrderIndependent(votes: seq<Vote>) {
    forall h1, s1, h2, s2 :: Orders(votes, h1, s1) && Orders(votes, h2, s2) ==>
      SameOutcome(Determine(votes, h1, s1), Determine(votes, h2, s2))
  }

  ghost predicate StrictAtBothLevels(votes: seq<Vote>, height: nat, hash: string) {
    && IsStrictPlurality(Height, height, votes)
    && IsStrictPlurality(Hash, hash, VotesFor(Height, height, votes))
  }

  lemma StrictDecides(votes: seq<Vote>, height: nat, hash: string, heights: seq<nat>, hashes: seq<string>)
    requires votes != [] && StrictAtBothLevels(votes, height, hash) && Orders(votes, heights, hashes)
    ensures var out := Determine(votes, heights, hashes);
      && out.rightHeight == VotesFor(Height, height, votes)
      && out.rightHash == VotesFor(Hash, hash, out.rightHeight)
      && multiset(out.wrongHeight) == multiset(votes) - multiset(out.rightHeight)
      && multiset(out.wrongHash) == multiset(out.rightHeight) - multiset(out.rightHash)
  {
    var h, s := ConsensusIsPlurality(votes, heights, hashes);
    assert h == height;
    assert s == hash;
  }

  lemma TieLeadsToTwo<K(!new)>(key: Vote -> K, k: K, votes: seq<Vote>) returns (other: K)
    requires IsPlurality(key, k, votes) && !IsStrictPlurality(key, k, votes)
    ensures IsPlurality(key, other, votes) && VotesFor(key, other, votes) != VotesFor(key, k, votes)
  {
    other :| other != k && |VotesFor(key, other, votes)| >= |VotesFor(key, k, votes)|;
    NoVotes(key, k, votes);
    NoVotes(key, other, votes);
    VotesForMembers(key, k, votes);
    VotesForMembers(key, other, votes);
    assert VotesFor(key, k, votes)[0] in VotesFor(key, k, votes);
  }

  /** The vote does not depend on how Go ranges over its maps exactly when one height leads strictly and,
      at that height, one hash leads strictly. */
  lemma OrderIndependentIffStrict(votes: seq<Vote>)
    requires votes != []
    ensures OrderIndependent(votes) <==> exists height, hash :: StrictAtBothLevels(votes, height, hash)
  {
    if height, hash :| StrictAtBothLevels(votes, height, hash) {
      forall h1, s1, h2, s2 | Orders(votes, h1, s1) && Orders(votes, h2, s2)
        ensures SameOutcome(Determine(votes, h1, s1), Determine(votes, h2, s2))
      {
        StrictDecides(votes, height, hash, h1, s1);
        StrictDecides(votes, height, hash, h2, s2);
      }
    }
    if !exists height, hash :: StrictAtBothLevels(votes, height, hash) {
      var h1, s1, h2, s2 := TieShows(votes);
    }
  }

  lemma TieShows(votes: seq<Vote>)
    returns (h1: seq<nat>, s1: seq<string>, h2: seq<nat>, s2: seq<string>)
    requires votes != [] && !exists height, hash :: StrictAtBothLevels(votes, height, hash)
    ensures Orders(votes, h1, s1) && Orders(votes, h2, s2)
    ensures !SameOutcome(Determine(votes, h1, s1), Determine(votes, h2, s2))
  {
    var height, hash := SomePluralities(votes);
    h1, s1 := EveryTieCanWin(votes, height, hash);
    if IsStrictPlurality(Height, height, votes) {
      assert !StrictAtBothLevels(votes, height, hash);
      var hash2 := TieLeadsToTwo(Hash, hash, VotesFor(Height, height, votes));
      h2, s2 := EveryTieCanWin(votes, height, hash2);
    } else {
      var height2 := TieLeadsToTwo(Height, height, votes);
      var hash2 := SomeHash(votes, height2);
      h2, s2 := EveryTieCanWin(votes, height2, hash2);
    }
  }

  lemma SomeHash(votes: seq<Vote>, height: nat) returns (hash: string)
    requires IsPlurality(Height, height, votes)
    ensures IsPlurality(Hash, hash, VotesFor(Height, height, votes))
  {
    var right := VotesFor(Height, height, votes);
    NoVotes(Height, height, votes);
    assert Hash(right[0]) in KeysOf(Hash, right);
    var hashes := OrderStartingWith(Hash(right[0]), KeysOf(Hash, right));
    hash := TallyIsPlurality(Hash, hashes, right);
  }

  lemma SomePluralities(votes: seq<Vote>) returns (height: nat, hash: string)
    requires votes != []
    ensures IsPlurality(Height, height, votes) && IsPlurality(Hash, hash, VotesFor(Height, height, votes))
  {
    assert Height(votes[0]) in KeysOf(Height, votes);
    var heights := OrderStartingWith(Height(votes[0]), KeysOf(Height, votes));
    height := TallyIsPlurality(Height, heights, votes);
    hash := SomeHash(votes, height);
  }

  // ---------------------------------------------------------------- unanimity

  ghost predicate HeightsAgree(votes: seq<Vote>) {
    forall v, w :: v in votes && w in votes ==> v.height == w.height
  }

  ghost predicate Unanimous(votes: seq<Vote>) {
    forall v, w :: v in votes && w in votes ==> v.height == w.height && v.hash == w.hash
  }

  /** Whatever the iteration order, no wrong heights means one height, and no wrong votes at all means one block. */
  lemma NothingWrongIffUnanimous(votes: seq<Vote>, heights: seq<nat>, hashes: seq<string>)
    requires Orders(votes, heights, hashes)
    ensures Determine(votes, heights, hashes).wrongHeight == [] <==> HeightsAgree(votes)
    ensures (Determine(votes, heights, hashes).wrongHeight == [] && Determine(votes, heights, hashes).wrongHash == [])
      <==> Unanimous(votes)
  {
    if votes == [] {
      OrderBegins(heights, KeysOf(Height, votes));
      OrderBegins(hashes, KeysOf(Hash, Tally(Height, heights, votes).0));
    } else {
      var height, hash := ConsensusIsPlurality(votes, heights, hashes);
      Dissent(votes, Determine(votes, heights, hashes), height, hash);
    }
  }

  lemma Dissent(votes: seq<Vote>, out: ForkOutcome, height: nat, hash: string)
    requires multiset(out.rightHeight) + multiset(out.wrongHeight) == multiset(votes)
    requires multiset(out.rightHash) + multiset(out.wrongHash) == multiset(out.rightHeight)
    requires forall v :: v in out.wrongHeight ==> v.height != height
    requires forall v :: v in out.rightHash ==> v.height == height && v.hash == hash
    requires forall v :: v in out.wrongHash ==> v.height == height && v.hash != hash
    requires out.rightHash != []
    ensures out.wrongHeight == [] <==> HeightsAgree(votes)
    ensures out.wrongHeight == [] && out.wrongHash == [] <==> Unanimous(votes)
  {
    SplitMembers(votes, out.rightHeight, out.wrongHeight);
    SplitMembers(out.rightHeight, out.rightHash, out.wrongHash);
    ApartFrom(votes, out.rightHash[0], out.wrongHeight, out.wrongHash);
  }

  /** One dissenting vote on either list breaks the agreement with v. */
  lemma ApartFrom(votes: seq<Vote>, v: Vote, wrongHeight: seq<Vote>, wrongHash: seq<Vote>)
    requires v in votes
    requires forall w :: w in wrongHeight ==> w in votes && w.height != v.height
    requires forall w :: w in wrongHash ==> w in votes && w.hash != v.hash
    ensures wrongHeight != [] ==> !HeightsAgree(votes) && !Unanimous(votes)
    ensures wrongHash != [] ==> !Unanimous(votes)
  {
    if wrongHeight != [] {
      assert wrongHeight[0] in votes;
    }
    if wrongHash != [] {
      assert wrongHash[0] in votes;
    }
  }

  lemma SplitMembers(all: seq<Vote>, some: seq<Vote>, rest: seq<Vote>)
    requires multiset(some) + multiset(rest) == multiset(all)
    ensures forall v :: v in all <==> v in some || v in rest
  {
    forall v
      ensures v in all <==> v in some || v in rest
    {
      assert v in multiset(all) <==> v in multiset(some) + multiset(rest);
    }
  }
}
