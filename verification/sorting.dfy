/** Python's `list.sort` (a stable sort that compares with `<` only) over a
    real-valued sort key, with the facts about it the card code relies on:
    the result is ordered, is a permutation, keeps equal keys in input order,
    and is the only sequence with those three properties. */
module Sorting {
  import opened Common

  ghost predicate SortedBy<T>(s: seq<T>, key: T -> real) {
    forall i, j :: 0 <= i < j < |s| ==> key(s[i]) <= key(s[j])
  }

  ghost predicate NonIncreasingBy<T>(s: seq<T>, key: T -> real) {
    forall i, j :: 0 <= i < j < |s| ==> key(s[i]) >= key(s[j])
  }

  /** The elements of `s` whose key is `k`, in their order in `s`. */
  function WithKey<T>(s: seq<T>, key: T -> real, k: real): (r: seq<T>)
    ensures |r| <= |s|
    ensures forall i :: 0 <= i < |r| ==> r[i] in s && key(r[i]) == k
  {
    if s == [] then []
    else (if key(s[0]) == k then [s[0]] else []) + WithKey(s[1..], key, k)
  }

  lemma {:induction false} WithKeyAppend<T>(a: seq<T>, b: seq<T>, key: T -> real, k: real)
    ensures WithKey(a + b, key, k) == WithKey(a, key, k) + WithKey(b, key, k)
  {
    if a == [] {
      assert a + b == b;
    } else {
      assert (a + b)[1..] == a[1..] + b;
      WithKeyAppend(a[1..], b, key, k);
    }
  }

  /** The elements of `s` whose key is strictly below `bound`, in order. */
  function KeepBelow<T>(s: seq<T>, key: T -> real, bound: real): (r: seq<T>)
    ensures |r| <= |s|
    ensures forall i :: 0 <= i < |r| ==> r[i] in s && key(r[i]) < bound
  {
    if s == [] then []
    else if key(s[0]) < bound then [s[0]] + KeepBelow(s[1..], key, bound)
    else KeepBelow(s[1..], key, bound)
  }

  lemma {:induction false} KeepBelowKeepsAll<T>(s: seq<T>, key: T -> real, bound: real)
    ensures forall i :: 0 <= i < |s| && key(s[i]) < bound ==> s[i] in KeepBelow(s, key, bound)
    ensures multiset(KeepBelow(s, key, bound)) <= multiset(s)
  {
    if s != [] {
      var tail := s[1..];
      KeepBelowKeepsAll(tail, key, bound);
      assert s == [s[0]] + tail;
      assert multiset(s) == multiset{s[0]} + multiset(tail);
      forall i | 0 < i < |s| && key(s[i]) < bound
        ensures s[i] in KeepBelow(s, key, bound)
      {
        assert s[i] == tail[i - 1];
      }
    }
  }

  lemma {:induction false} KeepBelowSorted<T>(s: seq<T>, key: T -> real, bound: real)
    requires SortedBy(s, key)
    ensures SortedBy(KeepBelow(s, key, bound), key)
  {
    if s != [] {
      var tail := s[1..];
      SortedTail(s, key);
      KeepBelowSorted(tail, key, bound);
      var kt := KeepBelow(tail, key, bound);
      if key(s[0]) < bound {
        if kt != [] {
          assert kt[0] in kt;
          var i :| 0 <= i < |tail| && tail[i] == kt[0];
          assert tail[i] == s[i + 1];
        }
        SortedCons(s[0], kt, key);
      }
    }
  }

  /** Inserts `x` in front of the first element whose key is not below it. */
  function Insert<T>(x: T, s: seq<T>, key: T -> real): (r: seq<T>)
    ensures |r| == |s| + 1
    ensures r[0] == x || (s != [] && r[0] == s[0])
  {
    if s == [] || key(x) <= key(s[0]) then [x] + s
    else [s[0]] + Insert(x, s[1..], key)
  }

  lemma {:induction false} InsertFacts<T>(x: T, s: seq<T>, key: T -> real)
    requires SortedBy(s, key)
    ensures SortedBy(Insert(x, s, key), key)
    ensures multiset(Insert(x, s, key)) == multiset(s) + multiset{x}
  {
    if s != [] && key(x) > key(s[0]) {
      var tail := s[1..];
      SortedTail(s, key);
      InsertFacts(x, tail, key);
      InsertPast(x, s, key);
      var rt := Insert(x, tail, key);
      assert rt[0] == x || rt[0] == tail[0];
      if rt[0] != x {
        assert key(s[0]) <= key(s[1]);
      }
      SortedCons(s[0], rt, key);
      assert s == [s[0]] + tail;
    } else {
      InsertFront(x, s, key);
      SortedCons(x, s, key);
    }
  }

  /** An element no greater than the head of an ordered sequence extends it. */
  lemma SortedCons<T>(h: T, t: seq<T>, key: T -> real)
    requires SortedBy(t, key)
    requires t == [] || key(h) <= key(t[0])
    ensures SortedBy([h] + t, key)
  {
    var r := [h] + t;
    forall i, j | 0 <= i < j < |r| ensures key(r[i]) <= key(r[j]) {
      assert r[j] == t[j - 1];
      if 0 < i {
        assert r[i] == t[i - 1];
      } else if 1 < j {
        assert key(t[0]) <= key(t[j - 1]);
      }
    }
  }

  lemma {:induction false} InsertWithKey<T>(x: T, s: seq<T>, key: T -> real, k: real)
    requires SortedBy(s, key)
    ensures WithKey(Insert(x, s, key), key, k) == WithKey([x] + s, key, k)
  {
    if s != [] && key(x) > key(s[0]) {
      var tail := s[1..];
      SortedTail(s, key);
      var ins := Insert(x, tail, key);
      InsertWithKey(x, tail, key, k);
      InsertPast(x, s, key);
      var h0 := if key(s[0]) == k then [s[0]] else [];
      var hx := if key(x) == k then [x] else [];
      assert ([s[0]] + ins)[1..] == ins && ([x] + tail)[1..] == tail && ([x] + s)[1..] == s;
      WithKeyUnfold([s[0]] + ins, key, k);
      WithKeyUnfold([x] + tail, key, k);
      WithKeyUnfold([x] + s, key, k);
      WithKeyUnfold(s, key, k);
      var w := WithKey(tail, key, k);
      if key(s[0]) == k {
        assert hx == [] && hx + w == w && hx + (h0 + w) == h0 + w;
      } else {
        assert h0 == [] && h0 + (hx + w) == hx + w && h0 + w == w;
      }
    } else {
      InsertFront(x, s, key);
    }
  }

  lemma InsertFront<T>(x: T, s: seq<T>, key: T -> real)
    requires s == [] || key(x) <= key(s[0])
    ensures Insert(x, s, key) == [x] + s
  {
  }

  lemma InsertPast<T>(x: T, s: seq<T>, key: T -> real)
    requires s != [] && key(s[0]) < key(x)
    ensures Insert(x, s, key) == [s[0]] + Insert(x, s[1..], key)
  {
  }

  /** Python's stable `list.sort` keyed by `key`, written as insertion sort. */
  function StableSort<T>(s: seq<T>, key: T -> real): (r: seq<T>)
    ensures SortedBy(r, key)
    ensures multiset(r) == multiset(s)
    ensures |r| == |s|
  {
    if s == [] then []
    else
      var rest := StableSort(s[1..], key);
      InsertFacts(s[0], rest, key);
      assert multiset(s) == multiset{s[0]} + multiset(s[1..]) by {
        assert s == [s[0]] + s[1..];
      }
      Insert(s[0], rest, key)
  }

  lemma SortStep<T>(s: seq<T>, key: T -> real)
    requires s != []
    ensures StableSort(s, key) == Insert(s[0], StableSort(s[1..], key), key)
  {
  }

  /** The sort is stable: the elements of each key keep their input order. */
  lemma {:induction false} StableSortIsStable<T>(s: seq<T>, key: T -> real, k: real)
    ensures WithKey(StableSort(s, key), key, k) == WithKey(s, key, k)
  {
    if s != [] {
      StableSortIsStable(s[1..], key, k);
      InsertWithKey(s[0], StableSort(s[1..], key), key, k);
      assert ([s[0]] + StableSort(s[1..], key))[1..] == StableSort(s[1..], key);
    }
  }

  lemma {:induction false} WithKeyOfSortedAbove<T>(s: seq<T>, key: T -> real, k: real)
    requires forall i :: 0 <= i < |s| ==> k < key(s[i])
    ensures WithKey(s, key, k) == []
  {
    if s != [] {
      WithKeyOfSortedAbove(s[1..], key, k);
    }
  }

  lemma WithKeyUnfold<T>(s: seq<T>, key: T -> real, k: real)
    requires s != []
    ensures WithKey(s, key, k) == (if key(s[0]) == k then [s[0]] else []) + WithKey(s[1..], key, k)
  {
  }

  /** Two ordered sequences that agree on the elements of every key start
      with the same element. */
  lemma SortedWithSameKeysSameHead<T>(t: seq<T>, u: seq<T>, key: T -> real)
    requires SortedBy(t, key) && SortedBy(u, key)
    requires forall k :: WithKey(t, key, k) == WithKey(u, key, k)
    requires t != []
    ensures u != [] && t[0] == u[0]
  {
    var a := t[0];
    var ka := key(a);
    WithKeyUnfold(t, key, ka);
    assert WithKey(t, key, ka)[0] == a;
    assert WithKey(u, key, ka) == WithKey(t, key, ka);
    assert |u| >= |WithKey(u, key, ka)| >= 1;
    var b := u[0];
    var kb := key(b);
    WithKeyUnfold(u, key, kb);
    if ka < kb {
      forall i | 0 <= i < |u| ensures ka < key(u[i]) {
        if 0 < i {
          assert kb <= key(u[i]);
        }
      }
      WithKeyOfSortedAbove(u, key, ka);
      assert false;
    } else if kb < ka {
      assert WithKey(u, key, kb)[0] == b;
      assert WithKey(t, key, kb) == WithKey(u, key, kb);
      forall i | 0 <= i < |t| ensures kb < key(t[i]) {
        if 0 < i {
          assert ka <= key(t[i]);
        }
      }
      WithKeyOfSortedAbove(t, key, kb);
      assert false;
    } else {
      assert WithKey(u, key, ka)[0] == b;
    }
  }

  /** Two ordered sequences that agree on the elements of every key are equal:
      the stable sort is determined by ordering plus stability. */
  lemma {:induction false} SortedWithSameKeysEqual<T>(t: seq<T>, u: seq<T>, key: T -> real)
    requires SortedBy(t, key) && SortedBy(u, key)
    requires forall k :: WithKey(t, key, k) == WithKey(u, key, k)
    ensures t == u
    decreases |t|
  {
    if t == [] {
      if u != [] {
        SortedWithSameKeysSameHead(u, t, key);
      }
    } else {
      SortedWithSameKeysSameHead(t, u, key);
      forall k ensures WithKey(t[1..], key, k) == WithKey(u[1..], key, k) {
        WithKeyUnfold(t, key, k);
        WithKeyUnfold(u, key, k);
        assert WithKey(t, key, k) == WithKey(u, key, k);
        var h := if key(t[0]) == k then [t[0]] else [];
        assert h + WithKey(t[1..], key, k) == h + WithKey(u[1..], key, k);
        assert WithKey(t[1..], key, k) == (h + WithKey(t[1..], key, k))[|h|..];
        assert WithKey(u[1..], key, k) == (h + WithKey(u[1..], key, k))[|h|..];
      }
      SortedWithSameKeysEqual(t[1..], u[1..], key);
      assert t == [t[0]] + t[1..];
      assert u == [u[0]] + u[1..];
    }
  }

  /** Any ordered rearrangement that keeps equal keys in input order is the
      stable sort. */
  lemma StableSortUnique<T>(s: seq<T>, t: seq<T>, key: T -> real)
    requires SortedBy(t, key)
    requires forall k :: WithKey(t, key, k) == WithKey(s, key, k)
    ensures t == StableSort(s, key)
  {
    forall k ensures WithKey(t, key, k) == WithKey(StableSort(s, key), key, k) {
      StableSortIsStable(s, key, k);
    }
    SortedWithSameKeysEqual(t, StableSort(s, key), key);
  }

  lemma {:induction false} WithKeyKeepBelow<T>(s: seq<T>, key: T -> real, bound: real, k: real)
    ensures WithKey(KeepBelow(s, key, bound), key, k)
         == if k < bound then WithKey(s, key, k) else []
  {
    if s != [] {
      WithKeyKeepBelow(s[1..], key, bound, k);
    }
  }

  /** Filtering by a key bound commutes with the stable sort. */
  lemma KeepBelowCommutesWithSort<T>(s: seq<T>, key: T -> real, bound: real)
    ensures KeepBelow(StableSort(s, key), key, bound) == StableSort(KeepBelow(s, key, bound), key)
  {
    var t := KeepBelow(StableSort(s, key), key, bound);
    forall k ensures WithKey(t, key, k) == WithKey(KeepBelow(s, key, bound), key, k) {
      WithKeyKeepBelow(StableSort(s, key), key, bound, k);
      WithKeyKeepBelow(s, key, bound, k);
      StableSortIsStable(s, key, k);
    }
    KeepBelowSorted(StableSort(s, key), key, bound);
    StableSortUnique(KeepBelow(s, key, bound), t, key);
  }

  /** In an ordered sequence the elements below a bound form a prefix, so
      filtering a prefix is a prefix of the filtered sequence. */
  lemma {:induction false} KeepBelowOfSortedPrefix<T>(s: seq<T>, key: T -> real, bound: real, c: nat)
    requires SortedBy(s, key)
    requires c <= |s|
    ensures KeepBelow(s[..c], key, bound)
         == KeepBelow(s, key, bound)[..Min(c, |KeepBelow(s, key, bound)|)]
  {
    if 0 < c && key(s[0]) < bound {
      SortedTail(s, key);
      KeepBelowOfSortedPrefix(s[1..], key, bound, c - 1);
      KeepBelowPrefixStep(s, key, bound, c);
    } else {
      KeepBelowPrefixStop(s, key, bound, c);
    }
  }

  /** An empty prefix, or a head at or above the bound, leaves nothing in
      the filtered prefix. */
  lemma KeepBelowPrefixStop<T>(s: seq<T>, key: T -> real, bound: real, c: nat)
    requires SortedBy(s, key)
    requires c <= |s| && (c == 0 || bound <= key(s[0]))
    ensures KeepBelow(s[..c], key, bound)
         == KeepBelow(s, key, bound)[..Min(c, |KeepBelow(s, key, bound)|)]
  {
    if c == 0 {
      assert s[..c] == [];
    } else {
      NothingBelowAfterHead(s, key, bound);
      PrefixSorted(s, key, c);
      assert s[..c][0] == s[0];
      NothingBelowAfterHead(s[..c], key, bound);
    }
  }

  lemma SortedTail<T>(s: seq<T>, key: T -> real)
    requires SortedBy(s, key) && s != []
    ensures SortedBy(s[1..], key)
  {
    var tail := s[1..];
    forall i, j | 0 <= i < j < |tail| ensures key(tail[i]) <= key(tail[j]) {
      assert tail[i] == s[i + 1] && tail[j] == s[j + 1];
    }
  }

  /** One step of the prefix argument: a kept head is kept in both. */
  lemma KeepBelowPrefixStep<T>(s: seq<T>, key: T -> real, bound: real, c: nat)
    requires 0 < c <= |s| && key(s[0]) < bound
    requires KeepBelow(s[1..][..c - 1], key, bound)
          == KeepBelow(s[1..], key, bound)[..Min(c - 1, |KeepBelow(s[1..], key, bound)|)]
    ensures KeepBelow(s[..c], key, bound)
         == KeepBelow(s, key, bound)[..Min(c, |KeepBelow(s, key, bound)|)]
  {
    var p, tail := s[..c], s[1..];
    assert p[1..] == tail[..c - 1];
    var rest := KeepBelow(tail, key, bound);
    assert KeepBelow(p, key, bound) == [s[0]] + KeepBelow(p[1..], key, bound);
    assert KeepBelow(s, key, bound) == [s[0]] + rest;
    assert ([s[0]] + rest)[..Min(c, |rest| + 1)] == [s[0]] + rest[..Min(c - 1, |rest|)];
  }

  lemma NothingBelowAfterHead<T>(s: seq<T>, key: T -> real, bound: real)
    requires SortedBy(s, key)
    requires s != [] && bound <= key(s[0])
    ensures KeepBelow(s, key, bound) == []
  {
    if s[1..] != [] {
      assert bound <= key(s[1]);
      NothingBelowAfterHead(s[1..], key, bound);
    }
  }

  function Reverse<T>(s: seq<T>): (r: seq<T>)
    ensures |r| == |s|
    ensures forall i :: 0 <= i < |s| ==> r[i] == s[|s| - 1 - i]
  {
    if s == [] then [] else Reverse(s[1..]) + [s[0]]
  }

  lemma {:induction false} ReverseSortedIsNonIncreasing<T>(s: seq<T>, key: T -> real)
    requires SortedBy(s, key)
    ensures NonIncreasingBy(Reverse(s), key)
  {
    var r := Reverse(s);
    forall i, j | 0 <= i < j < |r| ensures key(r[i]) >= key(r[j]) {
      assert r[i] == s[|s| - 1 - i] && r[j] == s[|s| - 1 - j];
    }
  }

  lemma {:induction false} WithKeyReverse<T>(s: seq<T>, key: T -> real, k: real)
    ensures WithKey(Reverse(s), key, k) == Reverse(WithKey(s, key, k))
  {
    if s != [] {
      assert Reverse(s) == Reverse(s[1..]) + [s[0]];
      WithKeyAppend(Reverse(s[1..]), [s[0]], key, k);
      WithKeyReverse(s[1..], key, k);
      assert WithKey(s, key, k) == (if key(s[0]) == k then [s[0]] else []) + WithKey(s[1..], key, k);
      ReverseAppend(if key(s[0]) == k then [s[0]] else [], WithKey(s[1..], key, k));
    }
  }

  lemma ReverseAppend<T>(a: seq<T>, b: seq<T>)
    ensures Reverse(a + b) == Reverse(b) + Reverse(a)
  {
  }

  lemma PrefixSorted<T>(s: seq<T>, key: T -> real, c: nat)
    requires SortedBy(s, key) && c <= |s|
    ensures SortedBy(s[..c], key)
  {
  }

  lemma PrefixNonIncreasing<T>(s: seq<T>, key: T -> real, c: nat)
    requires NonIncreasingBy(s, key) && c <= |s|
    ensures NonIncreasingBy(s[..c], key)
  {
  }

  lemma SubMultisetMembers<T>(a: seq<T>, b: seq<T>)
    requires multiset(a) <= multiset(b)
    ensures forall x :: x in a ==> x in b
  {
    forall x | x in a ensures x in b {
      assert x in multiset(a);
    }
  }

  lemma PrefixMultiset<T>(s: seq<T>, c: nat)
    requires c <= |s|
    ensures multiset(s[..c]) <= multiset(s)
  {
    assert s == s[..c] + s[c..];
  }

  lemma ReverseMultiset<T>(s: seq<T>)
    ensures multiset(Reverse(s)) == multiset(s)
  {
    if s != [] {
      assert s == [s[0]] + s[1..];
      ReverseMultiset(s[1..]);
    }
  }
}
