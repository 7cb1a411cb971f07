/**
 * Greedy grouping, for any element type: each element in turn joins the first
 * group whose first member it matches (`eq(element, first)`), unless that group
 * already holds an element with the same key, in which case it is dropped;
 * an element that matches no group starts a new one.
 */
module GreedyGrouping {

  predicate HasKey<T, K(==)>(g: seq<T>, key: T -> K, k: K) {
    exists i :: 0 <= i < |g| && key(g[i]) == k
  }

  /** Every later member matches the first. */
  predicate Coherent<T>(g: seq<T>, eq: (T, T) -> bool) {
    forall i :: 1 <= i < |g| ==> eq(g[i], g[0])
  }

  predicate UniqueKeys<T, K(==)>(g: seq<T>, key: T -> K) {
    forall i, j :: 0 <= i < j < |g| ==> key(g[i]) != key(g[j])
  }

  /**
   * Non-empty groups, each coherent and without a repeated key, and no
   * group's first member matching an earlier group's first member.
   */
  predicate WellGrouped<T, K(==)>(groups: seq<seq<T>>, eq: (T, T) -> bool, key: T -> K) {
    && (forall j :: 0 <= j < |groups| ==> groups[j] != [] && Coherent(groups[j], eq) && UniqueKeys(groups[j], key))
    && (forall j, k :: 0 <= j < k < |groups| ==> !eq(groups[k][0], groups[j][0]))
  }

  /** An empty group takes anything; otherwise the element must match the first member. */
  predicate Matches<T>(g: seq<T>, c: T, eq: (T, T) -> bool) {
    g == [] || eq(c, g[0])
  }

  /** The first member always goes in; an element whose key is present is dropped; a matching one is appended. */
  function AddTo<T, K(==)>(g: seq<T>, c: T, eq: (T, T) -> bool, key: T -> K): (r: seq<T>)
    ensures r == g || r == g + [c]
  {
    if g == [] then [c]
    else if HasKey(g, key, key(c)) then g
    else if Matches(g, c, eq) then g + [c]
    else g
  }

  /** The index of the first group the element matches, or the number of groups. */
  function FirstMatch<T>(groups: seq<seq<T>>, c: T, eq: (T, T) -> bool): (j: nat)
    ensures j <= |groups|
    ensures forall k {:trigger Matches(groups[k], c, eq)} :: 0 <= k < j ==> !Matches(groups[k], c, eq)
    ensures j < |groups| ==> Matches(groups[j], c, eq)
    decreases |groups|
  {
    if groups == [] then 0
    else if Matches(groups[0], c, eq) then 0
    else 1 + FirstMatch(groups[1..], c, eq)
  }

  /** One element: into the first matching group, or a new singleton group. */
  function Place<T, K(==)>(groups: seq<seq<T>>, c: T, eq: (T, T) -> bool, key: T -> K): seq<seq<T>> {
    var j := FirstMatch(groups, c, eq);
    if j < |groups| then groups[j := AddTo(groups[j], c, eq, key)] else groups + [[c]]
  }

  lemma AddToKeepsGroup<T, K>(g: seq<T>, c: T, eq: (T, T) -> bool, key: T -> K)
    requires g != [] && Coherent(g, eq) && UniqueKeys(g, key) && Matches(g, c, eq)
    ensures var r := AddTo(g, c, eq, key);
            r != [] && r[0] == g[0] && Coherent(r, eq) && UniqueKeys(r, key) && HasKey(r, key, key(c))
  {
    var r := AddTo(g, c, eq, key);
    if !HasKey(g, key, key(c)) {
      assert r == g + [c];
      forall i, j | 0 <= i < j < |r| ensures key(r[i]) != key(r[j]) {
        assert r[i] == g[i];
        if j < |g| {
          assert r[j] == g[j];
        }
      }
      assert key(r[|g|]) == key(c);
    }
  }

  /** Placing an element keeps the grouping well formed. */
  lemma PlaceKeepsWellGrouped<T, K>(groups: seq<seq<T>>, c: T, eq: (T, T) -> bool, key: T -> K)
    requires WellGrouped(groups, eq, key)
    ensures WellGrouped(Place(groups, c, eq, key), eq, key)
  {
    var m := FirstMatch(groups, c, eq);
    if m < |groups| {
      AddToKeepsGroup(groups[m], c, eq, key);
    } else {
      var r := Place(groups, c, eq, key);
      assert r == groups + [[c]];
      forall j | 0 <= j < |groups| ensures !eq(r[|groups|][0], r[j][0]) {
        assert !Matches(groups[j], c, eq);
      }
    }
  }

  /**
   * Placing an element never removes or reorders anything: every group keeps
   * its members as a prefix, at most one group is added, and a member of the
   * result is either the placed element or an earlier member in the same place.
   */
  lemma PlaceGrows<T, K>(groups: seq<seq<T>>, c: T, eq: (T, T) -> bool, key: T -> K)
    ensures |groups| <= |Place(groups, c, eq, key)| <= |groups| + 1
    ensures forall j :: 0 <= j < |groups| ==> groups[j] <= Place(groups, c, eq, key)[j]
    ensures forall j, i :: 0 <= j < |Place(groups, c, eq, key)| && 0 <= i < |Place(groups, c, eq, key)[j]| ==>
              || Place(groups, c, eq, key)[j][i] == c
              || (j < |groups| && i < |groups[j]| && Place(groups, c, eq, key)[j][i] == groups[j][i])
  {
  }

  /** Some group holds an element with the same key as `x`. */
  predicate Covers<T, K(==)>(groups: seq<seq<T>>, key: T -> K, x: T) {
    exists j :: 0 <= j < |groups| && HasKey(groups[j], key, key(x))
  }

  /** After placing an element, some group holds its key. */
  lemma PlaceCoversKey<T, K>(groups: seq<seq<T>>, c: T, eq: (T, T) -> bool, key: T -> K)
    ensures Covers(Place(groups, c, eq, key), key, c)
  {
    var r := Place(groups, c, eq, key);
    var m := FirstMatch(groups, c, eq);
    if m < |groups| {
      var g := groups[m];
      if g == [] || !HasKey(g, key, key(c)) {
        assert r[m][|r[m]| - 1] == c;
      }
      assert HasKey(r[m], key, key(c));
    } else {
      assert r[|groups|] == [c];
      assert key(r[|groups|][0]) == key(c);
      assert HasKey(r[|groups|], key, key(c));
    }
  }

  /** Placing an element keeps every key already covered. */
  lemma PlaceKeepsCover<T, K>(groups: seq<seq<T>>, c: T, eq: (T, T) -> bool, key: T -> K, x: T)
    requires Covers(groups, key, x)
    ensures Covers(Place(groups, c, eq, key), key, x)
  {
    var r := Place(groups, c, eq, key);
    PlaceGrows(groups, c, eq, key);
    var j :| 0 <= j < |groups| && HasKey(groups[j], key, key(x));
    var i :| 0 <= i < |groups[j]| && key(groups[j][i]) == key(x);
    assert groups[j] <= r[j];
    assert r[j][i] == groups[j][i];
    assert HasKey(r[j], key, key(x));
  }

  /** Greedy grouping of a whole sequence, element by element. */
  function Greedy<T, K(==)>(s: seq<T>, eq: (T, T) -> bool, key: T -> K): seq<seq<T>>
    decreases |s|
  {
    if s == [] then [] else Place(Greedy(s[..|s| - 1], eq, key), s[|s| - 1], eq, key)
  }

  /** One more element: greedy grouping of a longer prefix places the next element. */
  lemma GreedyStep<T, K>(s: seq<T>, i: nat, eq: (T, T) -> bool, key: T -> K)
    requires i < |s|
    ensures Greedy(s[..i + 1], eq, key) == Place(Greedy(s[..i], eq, key), s[i], eq, key)
  {
    assert s[..i + 1][..i] == s[..i];
  }

  /** Placing an element into non-empty groups keeps every first member, and a new group starts with the element. */
  lemma PlaceKeepsHeads<T, K>(groups: seq<seq<T>>, c: T, eq: (T, T) -> bool, key: T -> K)
    requires forall j :: 0 <= j < |groups| ==> groups[j] != []
    ensures forall j :: 0 <= j < |Place(groups, c, eq, key)| ==>
              && Place(groups, c, eq, key)[j] != []
              && Place(groups, c, eq, key)[j][0] == (if j < |groups| then groups[j][0] else c)
  {
  }

  /** Greedy grouping is well formed, whatever the input. */
  lemma {:induction false} GreedyWellGrouped<T, K>(s: seq<T>, eq: (T, T) -> bool, key: T -> K)
    ensures WellGrouped(Greedy(s, eq, key), eq, key)
    decreases |s|
  {
    if s != [] {
      GreedyWellGrouped(s[..|s| - 1], eq, key);
      PlaceKeepsWellGrouped(Greedy(s[..|s| - 1], eq, key), s[|s| - 1], eq, key);
    }
  }

  /** Every member of every group is an element of the input. */
  lemma {:induction false} GreedyMembersFromInput<T, K>(s: seq<T>, eq: (T, T) -> bool, key: T -> K)
    ensures forall j, i :: 0 <= j < |Greedy(s, eq, key)| && 0 <= i < |Greedy(s, eq, key)[j]| ==> Greedy(s, eq, key)[j][i] in s
    decreases |s|
  {
    if s != [] {
      var n := |s| - 1;
      var prev := Greedy(s[..n], eq, key);
      GreedyMembersFromInput(s[..n], eq, key);
      PlaceGrows(prev, s[n], eq, key);
      var r := Greedy(s, eq, key);
      assert r == Place(prev, s[n], eq, key);
      forall j, i | 0 <= j < |r| && 0 <= i < |r[j]| ensures r[j][i] in s {
        if r[j][i] != s[n] {
          assert j < |prev| && i < |prev[j]| && r[j][i] == prev[j][i];
          assert prev[j][i] in s[..n];
          var t :| 0 <= t < n && s[..n][t] == prev[j][i];
          assert s[t] == r[j][i];
        }
      }
    }
  }

  /** Every input key turns up in some group: an element is dropped only when its key is already there. */
  lemma {:induction false} GreedyCoversKeys<T, K>(s: seq<T>, eq: (T, T) -> bool, key: T -> K)
    ensures forall k :: 0 <= k < |s| ==> Covers(Greedy(s, eq, key), key, s[k])
    decreases |s|
  {
    if s != [] {
      var n := |s| - 1;
      var prev := Greedy(s[..n], eq, key);
      GreedyCoversKeys(s[..n], eq, key);
      PlaceCoversKey(prev, s[n], eq, key);
      forall k | 0 <= k < n ensures Covers(Greedy(s, eq, key), key, s[k]) {
        assert s[..n][k] == s[k];
        PlaceKeepsCover(prev, s[n], eq, key, s[k]);
      }
    }
  }
}
