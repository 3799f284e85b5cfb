/** The LINQ pipelines the source uses, over sequences: `Where`, the
    `NotNull` and `DistinctBy` extensions (src/AssemblyLoader/Extensions and the
    `X` class in the first Lazy component), `Distinct` and `Except`.

    A comparer whose `Equals` is equality of hash codes behaves, inside
    `Distinct`/`Except`, exactly like equality of a key, so those operators
    are modelled by key functions. */
module Sequences {
  import opened Wrappers

  /** `source.Where(p)`. */
  function Filter<T(==,!new)>(xs: seq<T>, p: T -> bool): (r: seq<T>)
    ensures |r| <= |xs|
    ensures forall x :: x in r <==> x in xs && p(x)
  {
    if |xs| == 0 then []
    else (if p(xs[0]) then [xs[0]] else []) + Filter(xs[1..], p)
  }

  lemma {:induction false} FilterAppend<T(!new)>(a: seq<T>, b: seq<T>, p: T -> bool)
    ensures Filter(a + b, p) == Filter(a, p) + Filter(b, p)
  {
    if |a| == 0 {
      assert a + b == b;
    } else {
      assert (a + b)[1..] == a[1..] + b;
      FilterAppend(a[1..], b, p);
    }
  }

  /** The element at the one index that passes is all that is kept. */
  lemma {:induction false} FilterOne<T(!new)>(xs: seq<T>, p: T -> bool, i: nat)
    requires i < |xs| && p(xs[i])
    requires forall j :: 0 <= j < |xs| && j != i ==> !p(xs[j])
    ensures Filter(xs, p) == [xs[i]]
  {
    if i == 0 {
      FilterNone(xs[1..], p);
    } else {
      FilterOne(xs[1..], p, i - 1);
    }
  }

  lemma {:induction false} FilterNone<T(!new)>(xs: seq<T>, p: T -> bool)
    requires forall j :: 0 <= j < |xs| ==> !p(xs[j])
    ensures Filter(xs, p) == []
  {
    if |xs| > 0 {
      FilterNone(xs[1..], p);
    }
  }

  /** Nothing is dropped when everything passes. */
  lemma {:induction false} FilterAll<T(!new)>(xs: seq<T>, p: T -> bool)
    requires forall j :: 0 <= j < |xs| ==> p(xs[j])
    ensures Filter(xs, p) == xs
  {
    if |xs| > 0 {
      FilterAll(xs[1..], p);
      assert xs == [xs[0]] + xs[1..];
    }
  }

  /** Two indices that pass keep two elements. */
  lemma {:induction false} FilterTwo<T(!new)>(xs: seq<T>, p: T -> bool, i: nat, j: nat)
    requires i < j < |xs| && p(xs[i]) && p(xs[j])
    ensures |Filter(xs, p)| >= 2
  {
    if i == 0 {
      assert xs[j] in xs[1..];
    } else {
      FilterTwo(xs[1..], p, i - 1, j - 1);
    }
  }

  /** Filtering by a stronger predicate after a weaker one is filtering by
      the stronger one alone. */
  lemma {:induction false} FilterSubsumed<T(!new)>(xs: seq<T>, p: T -> bool, q: T -> bool)
    requires forall x :: q(x) ==> p(x)
    ensures Filter(Filter(xs, p), q) == Filter(xs, q)
  {
    if |xs| > 0 {
      FilterSubsumed(xs[1..], p, q);
      if p(xs[0]) {
        var fp := Filter(xs, p);
        assert fp == [xs[0]] + Filter(xs[1..], p);
        FilterAppend([xs[0]], Filter(xs[1..], p), q);
        assert Filter([xs[0]], q) == (if q(xs[0]) then [xs[0]] else []) by {
          assert [xs[0]][1..] == [];
        }
        assert Filter(fp, q) == (if q(xs[0]) then [xs[0]] else []) + Filter(xs[1..], q);
      } else {
        assert Filter(xs, p) == Filter(xs[1..], p);
        assert Filter(xs, q) == Filter(xs[1..], q);
      }
    }
  }

  /** `source.Where(i => i != null).Cast<T>()`. */
  function NotNull<T(==,!new)>(xs: seq<Option<T>>): (r: seq<T>)
    ensures |r| <= |xs|
    ensures forall x :: x in r <==> Some(x) in xs
  {
    if |xs| == 0 then []
    else (if xs[0].Some? then [xs[0].value] else []) + NotNull(xs[1..])
  }

  /** `NotNull` keeps the order: it distributes over concatenation. */
  lemma {:induction false} NotNullAppend<T(!new)>(a: seq<Option<T>>, b: seq<Option<T>>)
    ensures NotNull(a + b) == NotNull(a) + NotNull(b)
  {
    if |a| == 0 {
      assert a + b == b;
    } else {
      assert (a + b)[1..] == a[1..] + b;
      NotNullAppend(a[1..], b);
    }
  }

  /** Only nulls: nothing is left. */
  lemma {:induction false} NotNullOfNulls<T(!new)>(xs: seq<Option<T>>)
    requires forall i :: 0 <= i < |xs| ==> xs[i].None?
    ensures NotNull(xs) == []
  {
    if |xs| > 0 {
      NotNullOfNulls(xs[1..]);
    }
  }

  /** Number of non-null elements. */
  function CountSome<T>(xs: seq<Option<T>>): nat {
    if |xs| == 0 then 0 else (if xs[0].Some? then 1 else 0) + CountSome(xs[1..])
  }

  lemma {:induction false} NotNullLength<T(!new)>(xs: seq<Option<T>>)
    ensures |NotNull(xs)| == CountSome(xs)
  {
    if |xs| > 0 {
      NotNullLength(xs[1..]);
    }
  }

  /** The keys carried by the elements of `xs`. */
  function Keys<T(==,!new), K(==)>(xs: seq<T>, key: T -> K): set<K> {
    set x | x in xs :: key(x)
  }

  /** Keys pairwise distinct. */
  predicate DistinctKeys<T, K(==)>(xs: seq<T>, key: T -> K) {
    forall i, j :: 0 <= i < j < |xs| ==> key(xs[i]) != key(xs[j])
  }

  /** A LINQ set walk: keep an element when its key is not yet in `seen`, and
      add the key. `Distinct`, `GroupBy(..).Select(g => g.First())` and
      `Except` (whose `seen` starts with the keys of the second sequence) are
      all this walk. */
  function DistinctFrom<T(==,!new), K(==)>(xs: seq<T>, key: T -> K, seen: set<K>): (r: seq<T>)
    ensures forall i :: 0 <= i < |r| ==> key(r[i]) !in seen
    ensures DistinctKeys(r, key)
    ensures Keys(r, key) == Keys(xs, key) - seen
    ensures forall x :: x in r ==> x in xs
    decreases |xs|
  {
    if |xs| == 0 then []
    else if key(xs[0]) in seen then
      var r := DistinctFrom(xs[1..], key, seen);
      assert Keys(xs, key) == {key(xs[0])} + Keys(xs[1..], key) by {
        assert xs == [xs[0]] + xs[1..];
      }
      r
    else
      var tail := DistinctFrom(xs[1..], key, seen + {key(xs[0])});
      var r := [xs[0]] + tail;
      assert Keys(xs, key) == {key(xs[0])} + Keys(xs[1..], key) by {
        assert xs == [xs[0]] + xs[1..];
      }
      assert Keys(r, key) == {key(xs[0])} + Keys(tail, key) by {
        assert r[1..] == tail;
        assert forall x :: x in r <==> x == xs[0] || x in tail;
      }
      assert forall i :: 1 <= i < |r| ==> key(r[i]) != key(xs[0]) by {
        assert forall i :: 1 <= i < |r| ==> r[i] == tail[i - 1];
      }
      r
  }

  /** `source.GroupBy(selector).Select(g => g.First())`. */
  function DistinctBy<T(==,!new), K(==)>(xs: seq<T>, key: T -> K): (r: seq<T>)
    ensures DistinctKeys(r, key)
    ensures Keys(r, key) == Keys(xs, key)
    ensures forall x :: x in r ==> x in xs
  {
    DistinctFrom(xs, key, {})
  }

  /** A walk over keys that are pairwise distinct and all unseen keeps
      everything. */
  lemma {:induction false} DistinctFromFresh<T(!new), K>(xs: seq<T>, key: T -> K, seen: set<K>)
    requires DistinctKeys(xs, key)
    requires forall i :: 0 <= i < |xs| ==> key(xs[i]) !in seen
    ensures DistinctFrom(xs, key, seen) == xs
  {
    if |xs| > 0 {
      DistinctFromFresh(xs[1..], key, seen + {key(xs[0])});
      assert xs == [xs[0]] + xs[1..];
    }
  }

  /** On keys already pairwise distinct `DistinctBy` changes nothing. */
  lemma DistinctByOfDistinct<T(!new), K>(xs: seq<T>, key: T -> K)
    requires DistinctKeys(xs, key)
    ensures DistinctBy(xs, key) == xs
  {
    DistinctFromFresh(xs, key, {});
  }

  /** A filter keeps keys pairwise distinct. */
  lemma {:induction false} FilterKeepsDistinctKeys<T(!new), K>(xs: seq<T>, p: T -> bool, key: T -> K)
    requires DistinctKeys(xs, key)
    ensures DistinctKeys(Filter(xs, p), key)
  {
    if |xs| > 0 {
      var rest := Filter(xs[1..], p);
      FilterKeepsDistinctKeys(xs[1..], p, key);
      forall x | x in rest
        ensures key(x) != key(xs[0])
      {
        var j :| 0 <= j < |xs[1..]| && xs[1..][j] == x;
        assert xs[j + 1] == x;
      }
      var r := Filter(xs, p);
      if p(xs[0]) {
        assert r == [xs[0]] + rest;
        forall i, j | 0 <= i < j < |r|
          ensures key(r[i]) != key(r[j])
        {
          if i == 0 {
            assert r[j] == rest[j - 1] && rest[j - 1] in rest;
          } else {
            assert r[i] == rest[i - 1] && r[j] == rest[j - 1];
          }
        }
      }
    }
  }

  /** The elements with key `k`, in order: one group of `GroupBy`. */
  function Group<T(==,!new), K(==)>(xs: seq<T>, key: T -> K, k: K): seq<T> {
    Filter(xs, HasKey(key, k))
  }

  function HasKey<T, K(==)>(key: T -> K, k: K): T -> bool {
    x => key(x) == k
  }

  /** The element at the one index of key `k` is its whole group. */
  lemma GroupOne<T(!new), K>(xs: seq<T>, key: T -> K, k: K, i: nat)
    requires i < |xs| && key(xs[i]) == k
    requires forall j :: 0 <= j < |xs| && j != i ==> key(xs[j]) != k
    ensures Group(xs, key, k) == [xs[i]]
  {
    FilterOne(xs, HasKey(key, k), i);
  }

  /** Two indices of key `k` put two elements in its group. */
  lemma GroupTwo<T(!new), K>(xs: seq<T>, key: T -> K, k: K, i: nat, j: nat)
    requires i < j < |xs| && key(xs[i]) == k && key(xs[j]) == k
    ensures |Group(xs, key, k)| >= 2
  {
    FilterTwo(xs, HasKey(key, k), i, j);
  }

  /** A group of the elements that pass a filter implied by the group's key
      is the group of the unfiltered sequence. */
  lemma GroupOfFilter<T(!new), K>(xs: seq<T>, p: T -> bool, key: T -> K, k: K)
    requires forall x :: key(x) == k ==> p(x)
    ensures Group(Filter(xs, p), key, k) == Group(xs, key, k)
  {
    FilterSubsumed(xs, p, HasKey(key, k));
  }

  /** `source.GroupBy(key)`: one group per key, in order of first occurrence,
      each holding every element of its key in order. */
  function GroupBy<T(==,!new), K(==)>(xs: seq<T>, key: T -> K): (r: seq<(K, seq<T>)>)
    ensures forall i, j :: 0 <= i < j < |r| ==> r[i].0 != r[j].0
    ensures forall i :: 0 <= i < |r| ==> r[i].0 in Keys(xs, key) && r[i].1 == Group(xs, key, r[i].0)
    ensures forall k :: k in Keys(xs, key) ==> exists i :: 0 <= i < |r| && r[i].0 == k
  {
    var firsts := DistinctBy(xs, key);
    var r := seq(|firsts|, i requires 0 <= i < |firsts| => (key(firsts[i]), Group(xs, key, key(firsts[i]))));
    KeysOfRepresentatives(xs, key, firsts, r);
    r
  }

  /** The keys of one representative per key, in order, are exactly the keys
      of the sequence. */
  lemma KeysOfRepresentatives<T(!new), K, V>(xs: seq<T>, key: T -> K, firsts: seq<T>, r: seq<(K, V)>)
    requires Keys(firsts, key) == Keys(xs, key)
    requires |r| == |firsts| && forall i :: 0 <= i < |r| ==> r[i].0 == key(firsts[i])
    ensures forall i :: 0 <= i < |r| ==> r[i].0 in Keys(xs, key)
    ensures forall k :: k in Keys(xs, key) ==> exists i :: 0 <= i < |r| && r[i].0 == k
  {
    forall i | 0 <= i < |r|
      ensures r[i].0 in Keys(xs, key)
    {
      assert firsts[i] in firsts;
      assert r[i].0 in Keys(firsts, key);
    }
    forall k | k in Keys(xs, key)
      ensures exists i :: 0 <= i < |r| && r[i].0 == k
    {
      assert k in Keys(firsts, key);
      var x :| x in firsts && key(x) == k;
      var i :| 0 <= i < |firsts| && firsts[i] == x;
      assert r[i].0 == k;
    }
  }

  /** `first.Except(second, comparer)` for a comparer equating equal keys: the
      elements of `first` whose key no element of `second` has, the first one
      per key, in order. */
  function ExceptBy<T(==,!new), K(==)>(first: seq<T>, second: seq<T>, key: T -> K): (r: seq<T>)
    ensures DistinctKeys(r, key)
    ensures Keys(r, key) == Keys(first, key) - Keys(second, key)
    ensures forall x :: x in r ==> x in first
    ensures forall i :: 0 <= i < |r| ==> key(r[i]) !in Keys(second, key)
  {
    DistinctFrom(first, key, Keys(second, key))
  }

  /** The key of an element under the default equality: the element. */
  function Id<T>(x: T): T {
    x
  }

  /** `source.Distinct()` under the default equality. */
  function Distinct<T(==,!new)>(xs: seq<T>): (r: seq<T>)
    ensures forall i, j :: 0 <= i < j < |r| ==> r[i] != r[j]
    ensures forall x :: x in r <==> x in xs
  {
    var r := DistinctBy(xs, Id);
    assert forall x :: x in xs ==> x in r by {
      forall x | x in xs
        ensures x in r
      {
        assert x in Keys(xs, Id);
      }
    }
    r
  }

  /** `first.Except(second)` under the default equality: the elements of
      `first` that are not in `second`, each once. */
  function Except<T(==,!new)>(first: seq<T>, second: seq<T>): (r: seq<T>)
    ensures forall i, j :: 0 <= i < j < |r| ==> r[i] != r[j]
    ensures forall x :: x in r <==> x in first && x !in second
  {
    var r := ExceptBy(first, second, Id);
    assert forall x :: x in first && x !in second ==> x in r by {
      forall x | x in first && x !in second
        ensures x in r
      {
        assert x in Keys(first, Id);
        assert x !in Keys(second, Id);
        assert x in Keys(r, Id);
      }
    }
    assert forall x :: x in r ==> x !in second by {
      forall x | x in r
        ensures x !in second
      {
        var i :| 0 <= i < |r| && r[i] == x;
        forall y | y in second
          ensures y != x
        {
          assert y in Keys(second, Id);
        }
      }
    }
    r
  }

  /** A walk whose every key has been seen keeps nothing. */
  lemma {:induction false} DistinctFromSeen<T(!new), K>(xs: seq<T>, key: T -> K, seen: set<K>)
    requires forall i :: 0 <= i < |xs| ==> key(xs[i]) in seen
    ensures DistinctFrom(xs, key, seen) == []
  {
    if |xs| > 0 {
      DistinctFromSeen(xs[1..], key, seen);
    }
  }

  /** Removing a superset leaves nothing. */
  lemma ExceptOfCovered<T(!new)>(first: seq<T>, second: seq<T>)
    requires forall x :: x in first ==> x in second
    ensures Except(first, second) == []
  {
    var id := Id<T>;
    forall i | 0 <= i < |first|
      ensures id(first[i]) in Keys(second, id)
    {
      assert first[i] in second;
    }
    DistinctFromSeen(first, id, Keys(second, id));
    assert Except(first, second) == DistinctFrom(first, id, Keys(second, id));
  }

  /** Reference definition: index `i` holds the first element carrying its key. */
  predicate FirstOfKey<T, K(==)>(xs: seq<T>, key: T -> K, i: nat)
    requires i < |xs|
  {
    forall m :: 0 <= m < i ==> key(xs[m]) != key(xs[i])
  }

  /** Reference definition of `DistinctBy`: among the first `n` elements, those
      that are the first of their key, in order. */
  function FirstsOfKeys<T, K(==)>(xs: seq<T>, key: T -> K, n: nat): seq<T>
    requires n <= |xs|
  {
    if n == 0 then []
    else FirstsOfKeys(xs, key, n - 1) + (if FirstOfKey(xs, key, n - 1) then [xs[n - 1]] else [])
  }

  lemma {:induction false} DistinctFromMatchesFirsts<T(!new), K>(xs: seq<T>, key: T -> K, i: nat)
    requires i <= |xs|
    ensures FirstsOfKeys(xs, key, i) + DistinctFrom(xs[i..], key, Keys(xs[..i], key))
         == FirstsOfKeys(xs, key, |xs|)
    decreases |xs| - i
  {
    if i < |xs| {
      var seen := Keys(xs[..i], key);
      var k := key(xs[i]);
      FirstsOfKeysStep(xs, key, i);
      DistinctFromStep(xs[i..], key, seen);
      assert xs[i..][1..] == xs[i + 1..];
      assert Keys(xs[..i + 1], key) == seen + {k} by {
        assert xs[..i + 1] == xs[..i] + [xs[i]];
      }
      DistinctFromMatchesFirsts(xs, key, i + 1);
    }
  }

  /** One more element of the reference: kept exactly when its key is new. */
  lemma FirstsOfKeysStep<T(!new), K>(xs: seq<T>, key: T -> K, i: nat)
    requires i < |xs|
    ensures FirstsOfKeys(xs, key, i + 1)
         == FirstsOfKeys(xs, key, i) + (if key(xs[i]) in Keys(xs[..i], key) then [] else [xs[i]])
  {
    assert FirstOfKey(xs, key, i) <==> key(xs[i]) !in Keys(xs[..i], key) by {
      if key(xs[i]) in Keys(xs[..i], key) {
        var x :| x in xs[..i] && key(x) == key(xs[i]);
        var m :| 0 <= m < i && xs[m] == x;
      }
    }
  }

  /** One step of the set walk: the head is kept exactly when its key is not
      yet seen, and its key is seen afterwards. */
  lemma DistinctFromStep<T(!new), K>(xs: seq<T>, key: T -> K, seen: set<K>)
    requires |xs| > 0
    ensures DistinctFrom(xs, key, seen)
         == (if key(xs[0]) in seen then [] else [xs[0]]) + DistinctFrom(xs[1..], key, seen + {key(xs[0])})
  {
    if key(xs[0]) in seen {
      assert seen + {key(xs[0])} == seen;
    }
  }

  /** `DistinctBy` keeps exactly the first element of every key, in the order
      of the source: it is a subsequence that agrees with the reference. */
  lemma DistinctByKeepsFirsts<T(!new), K>(xs: seq<T>, key: T -> K)
    ensures DistinctBy(xs, key) == FirstsOfKeys(xs, key, |xs|)
  {
    assert xs[0..] == xs;
    assert Keys(xs[..0], key) == {} by {
      assert xs[..0] == [];
    }
    DistinctFromMatchesFirsts(xs, key, 0);
  }

  /** `Distinct` changes nothing on elements already pairwise distinct. */
  lemma DistinctOfDistinct<T(!new)>(xs: seq<T>)
    requires forall i, j :: 0 <= i < j < |xs| ==> xs[i] != xs[j]
    ensures Distinct(xs) == xs
  {
    DistinctByOfDistinct(xs, Id);
  }

  /** `Distinct` keeps the first occurrence of every element, in order. */
  lemma DistinctKeepsFirsts<T(!new)>(xs: seq<T>)
    ensures Distinct(xs) == FirstsOfKeys(xs, Id, |xs|)
  {
    DistinctByKeepsFirsts(xs, Id);
  }
}
