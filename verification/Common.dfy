/** Datatypes and sequence facts shared by the planner, the health checker and the fault lifecycle. */
module Common {

  datatype Option<+T> = None | Some(value: T)

  datatype Result<+T, +E> = Ok(value: T) | Err(error: E)

  /** No value occurs twice. */
  ghost predicate NoDuplicates<T>(s: seq<T>) {
    forall i, j :: 0 <= i < j < |s| ==> s[i] != s[j]
  }

  /** `order` lists every member of `keys` exactly once: one way in which Go may range over a map. */
  ghost predicate IsOrder<K>(order: seq<K>, keys: set<K>) {
    && NoDuplicates(order)
    && (forall k :: k in order ==> k in keys)
    && (forall k :: k in keys ==> k in order)
  }

  function Max(a: int, b: int): int {
    if a < b then b else a
  }

  lemma SnocPrefix<T>(s: seq<T>, i: nat)
    requires i < |s|
    ensures s[..i + 1] == s[..i] + [s[i]]
  {
  }

  /** `places` are the positions of `all` that meet the test, in order, and `kept` is what stands there. */
  ghost predicate KeptAt<T>(all: seq<T>, kept: seq<T>, test: T -> bool, places: seq<nat>) {
    && |places| == |kept|
    && (forall k :: 0 <= k < |places| ==> places[k] < |all| && kept[k] == all[places[k]])
    && (forall k, l :: 0 <= k < l < |places| ==> places[k] < places[l])
    && (forall i: nat :: i < |all| ==> (test(all[i]) <==> i in places))
  }

  /** `kept` lists exactly the members of `all` that meet the test, in their order and as often as they occur. */
  ghost predicate IsFilter<T>(all: seq<T>, kept: seq<T>, test: T -> bool) {
    exists places :: KeptAt(all, kept, test, places)
  }

  lemma NothingToFilter<T>(test: T -> bool)
    ensures IsFilter([], [], test)
  {
    assert KeptAt([], [], test, []);
  }

  lemma FilterSnoc<T>(all: seq<T>, kept: seq<T>, test: T -> bool, x: T)
    requires IsFilter(all, kept, test)
    ensures IsFilter(all + [x], kept + if test(x) then [x] else [], test)
  {
    var places :| KeptAt(all, kept, test, places);
    if test(x) {
      OnePlaceMore(all, kept, test, x, places);
    } else {
      assert kept + [] == kept;
      assert forall i: nat :: i < |all| ==> (all + [x])[i] == all[i];
      assert KeptAt(all + [x], kept, test, places);
    }
  }

  lemma OnePlaceMore<T>(all: seq<T>, kept: seq<T>, test: T -> bool, x: T, places: seq<nat>)
    requires KeptAt(all, kept, test, places) && test(x)
    ensures KeptAt(all + [x], kept + [x], test, places + [|all|])
  {
    var all', kept', places' := all + [x], kept + [x], places + [|all|];
    forall k | 0 <= k < |places'|
      ensures places'[k] < |all'| && kept'[k] == all'[places'[k]]
    {
      assert k < |places| ==> kept'[k] == kept[k] == all[places[k]];
    }
    forall i: nat | i < |all'|
      ensures test(all'[i]) <==> i in places'
    {
      assert i < |all| ==> all'[i] == all[i] && (i in places' <==> i in places);
    }
  }

  /** A filtered list is as long as there are positions that meet the test. */
  lemma FilterLength<T>(all: seq<T>, kept: seq<T>, test: T -> bool)
    requires IsFilter(all, kept, test)
    ensures |kept| == |set i | 0 <= i < |all| && test(all[i])|
  {
    var places :| KeptAt(all, kept, test, places);
    DistinctCount(places, set i | 0 <= i < |all| && test(all[i]));
  }

  lemma {:induction false} DistinctCount(places: seq<nat>, members: set<int>)
    requires forall k, l :: 0 <= k < l < |places| ==> places[k] < places[l]
    requires forall i :: i in members <==> i >= 0 && i in places
    ensures |members| == |places|
  {
    if places == [] {
      assert forall i :: i !in members;
      assert members == {};
    } else {
      var n := |places| - 1;
      assert places == places[..n] + [places[n]];
      assert places[n] in members;
      DistinctCount(places[..n], members - {places[n]});
    }
  }

  /** As many numbers lie between two bounds as the bounds are apart. */
  lemma {:induction false} IntervalSize(lo: int, hi: int, between: set<int>)
    requires lo <= hi && forall i :: i in between <==> lo <= i < hi
    ensures |between| == hi - lo
    decreases hi - lo
  {
    if lo < hi {
      IntervalSize(lo, hi - 1, between - {hi - 1});
    } else {
      assert forall i :: i !in between;
      assert between == {};
    }
  }

  lemma OrderBegins<K>(order: seq<K>, keys: set<K>)
    requires IsOrder(order, keys)
    ensures order == [] || order[0] in keys
  {
    if order != [] {
      assert order[0] in order;
    }
  }

  /** Every finite set of keys can be ranged over in some order that begins with a chosen key. */
  lemma OrderStartingWith<K>(k: K, keys: set<K>) returns (order: seq<K>)
    requires k in keys
    ensures IsOrder(order, keys) && order[0] == k
  {
    order := [k];
    var left := keys - {k};
    while left != {}
      invariant left <= keys - {k}
      invariant |order| > 0 && order[0] == k
      invariant IsOrder(order, keys - left)
      decreases left
    {
      var next :| next in left;
      order, left := order + [next], left - {next};
    }
  }

  /** Put what has been built so far in front of what follows, unless that fails. */
  function Prepend<T, E>(done: seq<T>, rest: Result<seq<T>, E>): Result<seq<T>, E> {
    if rest.Err? then rest else Ok(done + rest.value)
  }

  lemma PrependTwice<T, E>(a: seq<T>, b: seq<T>, rest: Result<seq<T>, E>)
    ensures Prepend(a + b, rest) == Prepend(a, Prepend(b, rest))
  {
    if rest.Ok? {
      assert (a + b) + rest.value == a + (b + rest.value);
    }
  }

  lemma PrependEmpty<T, E>(a: seq<T>, rest: Result<seq<T>, E>)
    ensures Prepend([], rest) == rest && Prepend<T, E>(a, Ok([])) == Ok(a)
  {
    assert rest.Ok? ==> [] + rest.value == rest.value;
    assert a + [] == a;
  }
}
