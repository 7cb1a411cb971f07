/**
 * Python's ordering of lists and strings (lexicographic, element by element)
 * and its stable sort `sorted(xs, key=...)`, which compares keys with `<` only.
 */
module Sorting {

  ghost predicate Irreflexive<K(!new)>(lt: (K, K) -> bool) {
    forall x :: !lt(x, x)
  }

  ghost predicate Transitive<K(!new)>(lt: (K, K) -> bool) {
    forall x, y, z :: lt(x, y) && lt(y, z) ==> lt(x, z)
  }

  /**
   * Python's `<` on two lists (or two strings): the first position where the
   * elements differ decides; if one is a prefix of the other, the shorter is less.
   */
  function SeqLt<E(==)>(a: seq<E>, b: seq<E>, lt: (E, E) -> bool): bool
    decreases |a|
  {
    if a == [] then b != []
    else if b == [] then false
    else if a[0] == b[0] then SeqLt(a[1..], b[1..], lt)
    else lt(a[0], b[0])
  }

  lemma {:induction false} SeqLtIrreflexive<E(!new)>(a: seq<E>, lt: (E, E) -> bool)
    ensures !SeqLt(a, a, lt)
    decreases |a|
  {
    if a != [] {
      SeqLtIrreflexive(a[1..], lt);
    }
  }

  lemma {:induction false} SeqLtTransitive<E(!new)>(a: seq<E>, b: seq<E>, c: seq<E>, lt: (E, E) -> bool)
    requires Irreflexive(lt) && Transitive(lt)
    requires SeqLt(a, b, lt) && SeqLt(b, c, lt)
    ensures SeqLt(a, c, lt)
    decreases |a|
  {
    if a != [] && b != [] && c != [] {
      if a[0] == b[0] && b[0] == c[0] {
        SeqLtTransitive(a[1..], b[1..], c[1..], lt);
      } else if a[0] != b[0] && b[0] != c[0] {
        assert lt(a[0], b[0]) && lt(b[0], c[0]);
      }
    }
  }

  /** Lexicographic order inherits being a strict order from the element order. */
  lemma SeqLtIsStrictOrder<E(!new)>(lt: (E, E) -> bool)
    requires Irreflexive(lt) && Transitive(lt)
    ensures Irreflexive((a: seq<E>, b: seq<E>) => SeqLt(a, b, lt))
    ensures Transitive((a: seq<E>, b: seq<E>) => SeqLt(a, b, lt))
  {
    forall a: seq<E> ensures !SeqLt(a, a, lt) {
      SeqLtIrreflexive(a, lt);
    }
    forall a: seq<E>, b: seq<E>, c: seq<E> | SeqLt(a, b, lt) && SeqLt(b, c, lt)
      ensures SeqLt(a, c, lt)
    {
      SeqLtTransitive(a, b, c, lt);
    }
  }

  /** No later element has a key strictly below an earlier one. */
  ghost predicate SortedByKey<T, K>(s: seq<T>, key: T -> K, lt: (K, K) -> bool) {
    forall i, j :: 0 <= i < j < |s| ==> !lt(key(s[j]), key(s[i]))
  }

  /** Inserts `x` before the first element whose key is strictly greater. */
  function Insert<T, K>(x: T, s: seq<T>, key: T -> K, lt: (K, K) -> bool): (r: seq<T>)
    ensures |r| == |s| + 1
    decreases |s|
  {
    if s == [] then [x]
    else if lt(key(x), key(s[0])) then [x] + s
    else
      assert s == [s[0]] + s[1..];
      [s[0]] + Insert(x, s[1..], key, lt)
  }

  /**
   * Stable sort by key: each element in turn is inserted after every earlier
   * element whose key is not greater, which is what Python's `sorted` yields.
   */
  function SortByKey<T, K>(s: seq<T>, key: T -> K, lt: (K, K) -> bool): (r: seq<T>)
    ensures |r| == |s|
    decreases |s|
  {
    if s == [] then [] else Insert(s[|s| - 1], SortByKey(s[..|s| - 1], key, lt), key, lt)
  }

  lemma {:induction false} InsertPermutes<T, K>(x: T, s: seq<T>, key: T -> K, lt: (K, K) -> bool)
    ensures multiset(Insert(x, s, key, lt)) == multiset(s) + multiset{x}
    decreases |s|
  {
    if s != [] && !lt(key(x), key(s[0])) {
      InsertPermutes(x, s[1..], key, lt);
      assert s == [s[0]] + s[1..];
    }
  }

  /** Sorting only reorders: the result is a permutation of the input. */
  lemma {:induction false} SortByKeyPermutes<T, K>(s: seq<T>, key: T -> K, lt: (K, K) -> bool)
    ensures multiset(SortByKey(s, key, lt)) == multiset(s)
    decreases |s|
  {
    if s != [] {
      var n := |s| - 1;
      SortByKeyPermutes(s[..n], key, lt);
      InsertPermutes(s[n], SortByKey(s[..n], key, lt), key, lt);
      assert s == s[..n] + [s[n]];
    }
  }

  /** Insertion keeps every key at or above a bound that all keys (the new one included) are at or above. */
  lemma {:induction false} InsertLowerBound<T, K>(x: T, s: seq<T>, key: T -> K, lt: (K, K) -> bool, b: K)
    requires forall i :: 0 <= i < |s| ==> !lt(key(s[i]), b)
    requires !lt(key(x), b)
    ensures forall j :: 0 <= j < |Insert(x, s, key, lt)| ==> !lt(key(Insert(x, s, key, lt)[j]), b)
    decreases |s|
  {
    if s != [] && !lt(key(x), key(s[0])) {
      assert forall i :: 0 <= i < |s| - 1 ==> s[1..][i] == s[i + 1];
      InsertLowerBound(x, s[1..], key, lt, b);
      var rest := Insert(x, s[1..], key, lt);
      var r := [s[0]] + rest;
      assert Insert(x, s, key, lt) == r;
      assert forall j :: 0 < j < |r| ==> r[j] == rest[j - 1];
    }
  }

  lemma {:induction false} InsertSorted<T, K(!new)>(x: T, s: seq<T>, key: T -> K, lt: (K, K) -> bool)
    requires Irreflexive(lt) && Transitive(lt)
    requires SortedByKey(s, key, lt)
    ensures SortedByKey(Insert(x, s, key, lt), key, lt)
    decreases |s|
  {
    if s != [] && !lt(key(x), key(s[0])) {
      var t := s[1..];
      assert forall i :: 0 <= i < |t| ==> t[i] == s[i + 1];
      assert SortedByKey(t, key, lt);
      InsertSorted(x, t, key, lt);
      InsertLowerBound(x, t, key, lt, key(s[0]));
      var rest := Insert(x, t, key, lt);
      var r := [s[0]] + rest;
      assert Insert(x, s, key, lt) == r;
      forall i, j | 0 <= i < j < |r| ensures !lt(key(r[j]), key(r[i])) {
        assert r[j] == rest[j - 1];
        if i > 0 {
          assert r[i] == rest[i - 1];
        }
      }
    } else if s != [] {
      var r := [x] + s;
      assert Insert(x, s, key, lt) == r;
      forall i, j | 0 <= i < j < |r| ensures !lt(key(r[j]), key(r[i])) {
        assert r[j] == s[j - 1];
        if i == 0 {
          assert j - 1 > 0 ==> !lt(key(s[j - 1]), key(s[0]));
        } else {
          assert r[i] == s[i - 1];
        }
      }
    }
  }

  lemma {:induction false} SortByKeySorted<T, K(!new)>(s: seq<T>, key: T -> K, lt: (K, K) -> bool)
    requires Irreflexive(lt) && Transitive(lt)
    ensures SortedByKey(SortByKey(s, key, lt), key, lt)
    decreases |s|
  {
    if s != [] {
      SortByKeySorted(s[..|s| - 1], key, lt);
      InsertSorted(s[|s| - 1], SortByKey(s[..|s| - 1], key, lt), key, lt);
    }
  }

  /** The elements of `s` whose key is `k`, in their order in `s`. */
  ghost function WithKey<T, K>(s: seq<T>, key: T -> K, k: K): seq<T>
    decreases |s|
  {
    if s == [] then [] else (if key(s[0]) == k then [s[0]] else []) + WithKey(s[1..], key, k)
  }

  lemma {:induction false} WithKeyAppend<T, K>(a: seq<T>, b: seq<T>, key: T -> K, k: K)
    ensures WithKey(a + b, key, k) == WithKey(a, key, k) + WithKey(b, key, k)
    decreases |a|
  {
    if a != [] {
      WithKeyAppend(a[1..], b, key, k);
      assert (a + b)[1..] == a[1..] + b;
    } else {
      assert a + b == b;
    }
  }

  lemma {:induction false} WithKeyNone<T, K>(s: seq<T>, key: T -> K, k: K)
    requires forall i :: 0 <= i < |s| ==> key(s[i]) != k
    ensures WithKey(s, key, k) == []
    decreases |s|
  {
    if s != [] {
      WithKeyNone(s[1..], key, k);
    }
  }

  lemma AppendAssoc<T>(a: seq<T>, b: seq<T>, c: seq<T>)
    ensures (a + b) + c == a + (b + c)
  {
  }

  /** Every key of a sorted list whose first key is above `x`'s differs from `x`'s. */
  lemma KeysAboveDiffer<T, K(!new)>(x: T, s: seq<T>, key: T -> K, lt: (K, K) -> bool)
    requires Irreflexive(lt)
    requires SortedByKey(s, key, lt) && s != [] && lt(key(x), key(s[0]))
    ensures forall i :: 0 <= i < |s| ==> key(s[i]) != key(x)
  {
    forall i | 0 <= i < |s| ensures key(s[i]) != key(x) {
      if i > 0 {
        assert !lt(key(s[i]), key(s[0]));
      }
    }
  }

  /** Inserting into a sorted list puts the new element after every element with the same key. */
  lemma {:induction false} InsertWithKey<T, K(!new)>(x: T, s: seq<T>, key: T -> K, lt: (K, K) -> bool, k: K)
    requires Irreflexive(lt) && Transitive(lt)
    requires SortedByKey(s, key, lt)
    ensures WithKey(Insert(x, s, key, lt), key, k) == WithKey(s, key, k) + (if key(x) == k then [x] else [])
    decreases |s|
  {
    if s == [] {
    } else if lt(key(x), key(s[0])) {
      if key(x) == k {
        KeysAboveDiffer(x, s, key, lt);
        WithKeyNone(s, key, k);
      }
      assert ([x] + s)[1..] == s;
    } else {
      assert SortedByKey(s[1..], key, lt) by {
        forall i, j | 0 <= i < j < |s| - 1 ensures !lt(key(s[1..][j]), key(s[1..][i])) {
          assert s[1..][j] == s[j + 1] && s[1..][i] == s[i + 1];
        }
      }
      InsertWithKey(x, s[1..], key, lt, k);
      var rest := Insert(x, s[1..], key, lt);
      var head := if key(s[0]) == k then [s[0]] else [];
      assert Insert(x, s, key, lt) == [s[0]] + rest;
      assert ([s[0]] + rest)[1..] == rest;
      assert WithKey(s, key, k) == head + WithKey(s[1..], key, k);
      AppendAssoc(head, WithKey(s[1..], key, k), if key(x) == k then [x] else []);
    }
  }

  /**
   * The sort is stable: the elements sharing a key come out in the order
   * they went in.
   */
  lemma {:induction false} SortByKeyStable<T, K(!new)>(s: seq<T>, key: T -> K, lt: (K, K) -> bool, k: K)
    requires Irreflexive(lt) && Transitive(lt)
    ensures WithKey(SortByKey(s, key, lt), key, k) == WithKey(s, key, k)
    decreases |s|
  {
    if s != [] {
      var n := |s| - 1;
      SortByKeyStable(s[..n], key, lt, k);
      SortByKeySorted(s[..n], key, lt);
      InsertWithKey(s[n], SortByKey(s[..n], key, lt), key, lt, k);
      WithKeyAppend(s[..n], [s[n]], key, k);
      assert s[..n] + [s[n]] == s;
      assert WithKey([s[n]], key, k) == (if key(s[n]) == k then [s[n]] else []) by {
        assert [s[n]][1..] == [];
      }
    }
  }

  function Map<T, U>(s: seq<T>, f: T -> U): (r: seq<U>)
    ensures |r| == |s| && forall i :: 0 <= i < |s| ==> r[i] == f(s[i])
  {
    seq(|s|, i requires 0 <= i < |s| => f(s[i]))
  }

  lemma {:induction false} InsertMapCommutes<T, U, K>(x: T, s: seq<T>, f: T -> U, key1: T -> K, key2: U -> K, lt: (K, K) -> bool)
    requires forall y :: key1(y) == key2(f(y))
    ensures Map(Insert(x, s, key1, lt), f) == Insert(f(x), Map(s, f), key2, lt)
    decreases |s|
  {
    if s != [] {
      assert Map(s, f)[0] == f(s[0]);
      assert Map(s, f)[1..] == Map(s[1..], f);
      if !lt(key1(x), key1(s[0])) {
        InsertMapCommutes(x, s[1..], f, key1, key2, lt);
        assert Map([s[0]] + Insert(x, s[1..], key1, lt), f)
            == [f(s[0])] + Map(Insert(x, s[1..], key1, lt), f);
      } else {
        assert Map([x] + s, f) == [f(x)] + Map(s, f);
      }
    }
  }

  /** Sorting a list and then projecting it is sorting the projections, when the key factors through the projection. */
  lemma {:induction false} SortMapCommutes<T, U, K>(s: seq<T>, f: T -> U, key1: T -> K, key2: U -> K, lt: (K, K) -> bool)
    requires forall y :: key1(y) == key2(f(y))
    ensures Map(SortByKey(s, key1, lt), f) == SortByKey(Map(s, f), key2, lt)
    decreases |s|
  {
    if s != [] {
      var n := |s| - 1;
      var sorted := SortByKey(s[..n], key1, lt);
      var mapped := Map(s, f);
      SortMapCommutes(s[..n], f, key1, key2, lt);
      assert Map(sorted, f) == SortByKey(Map(s[..n], f), key2, lt);
      InsertMapCommutes(s[n], sorted, f, key1, key2, lt);
      assert Map(Insert(s[n], sorted, key1, lt), f) == Insert(f(s[n]), Map(sorted, f), key2, lt);
      assert mapped[..n] == Map(s[..n], f);
      assert mapped[n] == f(s[n]);
      assert SortByKey(mapped, key2, lt) == Insert(mapped[n], SortByKey(mapped[..n], key2, lt), key2, lt);
      assert SortByKey(s, key1, lt) == Insert(s[n], sorted, key1, lt);
    }
  }

  /** `0, 1, …, n - 1` */
  function Indices(n: nat): (r: seq<nat>)
    ensures |r| == n && forall k :: 0 <= k < n ==> r[k] == k
  {
    seq(n, k => k)
  }

  /** `keys[k]`, or `d` past the end: a key function on indices. */
  function KeyAt<K>(keys: seq<K>, d: K): nat -> K {
    (k: nat) => if k < |keys| then keys[k] else d
  }

  /** Indices sorted by keys computed once per element. */
  function SortIndices<K>(keys: seq<K>, d: K, lt: (K, K) -> bool): (r: seq<nat>)
    ensures |r| == |keys|
  {
    SortByKey(Indices(|keys|), KeyAt(keys, d), lt)
  }

  /**
   * Sorting the indices by precomputed keys, then taking the elements at
   * those indices, is sorting the elements by their key.
   */
  lemma SortIndicesPicks<T, K>(s: seq<T>, keys: seq<K>, key: T -> K, lt: (K, K) -> bool, d: T, dk: K)
    requires |keys| == |s| && forall t :: 0 <= t < |s| ==> keys[t] == key(s[t])
    requires key(d) == dk
    ensures forall m :: 0 <= m < |s| ==> SortIndices(keys, dk, lt)[m] < |s|
    ensures forall m :: 0 <= m < |s| ==> s[SortIndices(keys, dk, lt)[m]] == SortByKey(s, key, lt)[m]
  {
    var order := SortIndices(keys, dk, lt);
    var pick := (k: nat) => if k < |s| then s[k] else d;
    SortMapCommutes(Indices(|s|), pick, KeyAt(keys, dk), key, lt);
    assert Map(Indices(|s|), pick) == s;
    SortByKeyPermutes(Indices(|s|), KeyAt(keys, dk), lt);
    forall m | 0 <= m < |s| ensures order[m] < |s| {
      assert order[m] in multiset(Indices(|s|));
    }
  }
}
