/**
 * The two list operations the views are built from: `Array.prototype.filter`
 * and a copy-and-`sort` with a two-level comparator. The ECMAScript sort is
 * stable, so the model is a stable insertion sort on a lexicographic key.
 */
module Lists {

  /** The elements of `s` that `keep` accepts, in their order in `s`. */
  function Filter<T>(s: seq<T>, keep: T -> bool): (r: seq<T>)
    ensures |r| <= |s|
  {
    if s == [] then [] else (if keep(s[0]) then [s[0]] else []) + Filter(s[1..], keep)
  }

  /** An element is in the filtered list exactly when it is in the list and accepted. */
  lemma {:induction false} FilterMember<T>(s: seq<T>, keep: T -> bool, x: T)
    ensures x in Filter(s, keep) <==> x in s && keep(x)
  {
    if s != [] {
      FilterMember(s[1..], keep, x);
      assert s == [s[0]] + s[1..];
    }
  }

  /** Filtering a concatenation filters each part and keeps them in order. */
  lemma {:induction false} FilterAppend<T>(a: seq<T>, b: seq<T>, keep: T -> bool)
    ensures Filter(a + b, keep) == Filter(a, keep) + Filter(b, keep)
  {
    if a == [] {
      assert a + b == b;
    } else {
      var head := if keep(a[0]) then [a[0]] else [];
      assert (a + b)[0] == a[0];
      assert (a + b)[1..] == a[1..] + b;
      FilterAppend(a[1..], b, keep);
      calc {
        Filter(a + b, keep);
        head + Filter(a[1..] + b, keep);
        head + (Filter(a[1..], keep) + Filter(b, keep));
        (head + Filter(a[1..], keep)) + Filter(b, keep);
        Filter(a, keep) + Filter(b, keep);
      }
    }
  }

  function Not<T>(keep: T -> bool): T -> bool {
    x => !keep(x)
  }

  /** A filter and its complement split the list: together they hold each element once. */
  lemma {:induction false} FilterComplement<T>(s: seq<T>, keep: T -> bool)
    ensures multiset(Filter(s, keep)) + multiset(Filter(s, Not(keep))) == multiset(s)
  {
    if s != [] {
      var tail := s[1..];
      FilterComplement(tail, keep);
      var kept := if keep(s[0]) then [s[0]] else [];
      var dropped := if keep(s[0]) then [] else [s[0]];
      assert Filter(s, keep) == kept + Filter(tail, keep);
      assert Filter(s, Not(keep)) == dropped + Filter(tail, Not(keep));
      assert s == [s[0]] + tail;
      MultisetOfParts(s[0], kept, dropped, Filter(tail, keep), Filter(tail, Not(keep)), tail);
    }
  }

  lemma MultisetOfParts<T>(x: T, kept: seq<T>, dropped: seq<T>, p: seq<T>, q: seq<T>, tail: seq<T>)
    requires multiset(kept) + multiset(dropped) == multiset{x}
    requires multiset(p) + multiset(q) == multiset(tail)
    ensures multiset(kept + p) + multiset(dropped + q) == multiset([x] + tail)
  {
  }

  /** How many elements a filter keeps depends only on the multiset of the list. */
  lemma {:induction false} FilterLengthPermutation<T>(a: seq<T>, b: seq<T>, keep: T -> bool)
    requires multiset(a) == multiset(b)
    ensures |Filter(a, keep)| == |Filter(b, keep)|
    decreases |a|
  {
    if a == [] {
      assert |b| == |multiset(b)| == 0;
    } else {
      assert a[0] in multiset(b);
      var k :| 0 <= k < |b| && b[k] == a[0];
      var rest := b[..k] + b[k + 1..];
      RemoveAt(b, k);
      assert a == [a[0]] + a[1..];
      assert multiset(a[1..]) == multiset(rest);
      FilterLengthPermutation(a[1..], rest, keep);
      FilterLengthRemoveAt(b, k, keep);
    }
  }

  lemma RemoveAt<T>(b: seq<T>, k: int)
    requires 0 <= k < |b|
    ensures multiset(b[..k] + b[k + 1..]) == multiset(b) - multiset{b[k]}
  {
    assert b == b[..k] + [b[k]] + b[k + 1..];
  }

  lemma FilterLengthRemoveAt<T>(b: seq<T>, k: int, keep: T -> bool)
    requires 0 <= k < |b|
    ensures |Filter(b, keep)| == |Filter(b[..k] + b[k + 1..], keep)| + (if keep(b[k]) then 1 else 0)
  {
    assert b == b[..k] + ([b[k]] + b[k + 1..]);
    FilterAppend(b[..k], [b[k]] + b[k + 1..], keep);
    FilterAppend(b[..k], b[k + 1..], keep);
    assert ([b[k]] + b[k + 1..])[1..] == b[k + 1..];
  }

  /** A filter that accepts every element is the identity. */
  lemma {:induction false} FilterKeepsAll<T>(s: seq<T>, keep: T -> bool)
    requires forall i :: 0 <= i < |s| ==> keep(s[i])
    ensures Filter(s, keep) == s
  {
    if s != [] {
      FilterKeepsAll(s[1..], keep);
    }
  }

  /** No two elements of `s` have the same image under `f`. */
  predicate DistinctBy<T, K(==)>(s: seq<T>, f: T -> K) {
    forall i, j :: 0 <= i < j < |s| ==> f(s[i]) != f(s[j])
  }

  /** Prepending an element whose image is new keeps the images distinct. */
  lemma PrependDistinct<T, K>(s: seq<T>, x: T, f: T -> K)
    requires DistinctBy(s, f)
    requires forall i :: 0 <= i < |s| ==> f(s[i]) != f(x)
    ensures DistinctBy([x] + s, f)
  {
    var r := [x] + s;
    forall i, j | 0 <= i < j < |r| ensures f(r[i]) != f(r[j]) {
      assert r[j] == s[j - 1];
      if i > 0 {
        assert r[i] == s[i - 1];
      }
    }
  }

  /** A filter of a list with distinct images keeps them distinct. */
  lemma {:induction false} FilterDistinct<T, K>(s: seq<T>, keep: T -> bool, f: T -> K)
    requires DistinctBy(s, f)
    ensures DistinctBy(Filter(s, keep), f)
  {
    if s != [] {
      var tail := s[1..];
      assert DistinctBy(tail, f) by {
        forall i, j | 0 <= i < j < |tail| ensures f(tail[i]) != f(tail[j]) {
          assert tail[i] == s[i + 1] && tail[j] == s[j + 1];
        }
      }
      FilterDistinct(tail, keep, f);
      var rest := Filter(tail, keep);
      if keep(s[0]) {
        forall i | 0 <= i < |rest| ensures f(rest[i]) != f(s[0]) {
          FilterMember(tail, keep, rest[i]);
          var j :| 0 <= j < |tail| && tail[j] == rest[i];
          assert s[j + 1] == tail[j];
        }
        PrependDistinct(rest, s[0], f);
        assert Filter(s, keep) == [s[0]] + rest;
      } else {
        assert Filter(s, keep) == rest;
      }
    }
  }

  /** A list with the same image at every position as a list with distinct images has distinct images. */
  lemma SameImagesDistinct<T, K>(s: seq<T>, r: seq<T>, f: T -> K)
    requires DistinctBy(s, f)
    requires |r| == |s| && forall i :: 0 <= i < |s| ==> f(r[i]) == f(s[i])
    ensures DistinctBy(r, f)
  {
  }

  /**
   * A comparator key: `major` first, then `minor`; the smaller key sorts first.
   * Each comparator `(a, b) => d1 !== 0 ? d1 : d2` of the source is one such key.
   */
  datatype Key = Key(major: int, minor: int)

  predicate KeyLe(a: Key, b: Key) {
    a.major < b.major || (a.major == b.major && a.minor <= b.minor)
  }

  predicate SortedBy<T>(s: seq<T>, key: T -> Key) {
    forall i, j :: 0 <= i < j < |s| ==> KeyLe(key(s[i]), key(s[j]))
  }

  /** A filter of a sorted list is sorted. */
  lemma {:induction false} FilterSorted<T>(s: seq<T>, keep: T -> bool, key: T -> Key)
    requires SortedBy(s, key)
    ensures SortedBy(Filter(s, keep), key)
  {
    if s != [] {
      FilterSorted(s[1..], keep, key);
      var rest := Filter(s[1..], keep);
      forall i | 0 <= i < |rest| ensures KeyLe(key(s[0]), key(rest[i])) {
        FilterMember(s[1..], keep, rest[i]);
        var j :| 0 <= j < |s[1..]| && s[1..][j] == rest[i];
        assert s[j + 1] == rest[i];
      }
    }
  }

  /** Puts `x` into the sorted `s` before the first element whose key is not smaller. */
  function Insert<T>(x: T, s: seq<T>, key: T -> Key): (r: seq<T>)
    requires SortedBy(s, key)
    ensures |r| == |s| + 1
    ensures multiset(r) == multiset(s) + multiset{x}
    ensures SortedBy(r, key)
  {
    if s == [] then [x]
    else if KeyLe(key(x), key(s[0])) then [x] + s
    else
      var rest := Insert(x, s[1..], key);
      assert s == [s[0]] + s[1..];
      ConsSorted(s[0], rest, key, x, s[1..]);
      [s[0]] + rest
  }

  /** `[y] + rest` is sorted when `y` sorts before `x` and every element of `tail`, and `rest` holds just those. */
  lemma ConsSorted<T>(y: T, rest: seq<T>, key: T -> Key, x: T, tail: seq<T>)
    requires SortedBy(rest, key) && SortedBy([y] + tail, key)
    requires KeyLe(key(y), key(x))
    requires multiset(rest) == multiset(tail) + multiset{x}
    ensures SortedBy([y] + rest, key)
  {
    forall i | 0 <= i < |rest| ensures KeyLe(key(y), key(rest[i])) {
      assert rest[i] in multiset(rest);
      if rest[i] != x {
        assert rest[i] in multiset(tail);
        var j :| 0 <= j < |tail| && tail[j] == rest[i];
        assert ([y] + tail)[0] == y && ([y] + tail)[j + 1] == rest[i];
      }
    }
  }

  /** The stable sort of `s` by `key`: a permutation of `s` in key order. */
  function SortBy<T>(s: seq<T>, key: T -> Key): (r: seq<T>)
    ensures |r| == |s|
    ensures multiset(r) == multiset(s)
    ensures SortedBy(r, key)
  {
    if s == [] then []
    else
      assert s == [s[0]] + s[1..];
      Insert(s[0], SortBy(s[1..], key), key)
  }

  /** The elements of `s` whose key is `k`, in order. */
  function WithKey<T>(s: seq<T>, key: T -> Key, k: Key): seq<T> {
    if s == [] then [] else (if key(s[0]) == k then [s[0]] else []) + WithKey(s[1..], key, k)
  }

  lemma {:induction false} InsertWithKey<T>(x: T, s: seq<T>, key: T -> Key, k: Key)
    requires SortedBy(s, key)
    ensures WithKey(Insert(x, s, key), key, k) == (if key(x) == k then [x] else []) + WithKey(s, key, k)
  {
    if s == [] {
      WithKeyCons(x, [], key, k);
    } else if KeyLe(key(x), key(s[0])) {
      WithKeyCons(x, s, key, k);
    } else {
      var rest := Insert(x, s[1..], key);
      assert Insert(x, s, key) == [s[0]] + rest;
      InsertWithKey(x, s[1..], key, k);
      WithKeyCons(s[0], rest, key, k);
      assert s == [s[0]] + s[1..];
      WithKeyCons(s[0], s[1..], key, k);
      assert key(x) == k ==> key(s[0]) != k;
      SwapSingletons(if key(s[0]) == k then [s[0]] else [], if key(x) == k then [x] else [], WithKey(s[1..], key, k));
    }
  }

  lemma WithKeyCons<T>(y: T, r: seq<T>, key: T -> Key, k: Key)
    ensures WithKey([y] + r, key, k) == (if key(y) == k then [y] else []) + WithKey(r, key, k)
  {
    assert ([y] + r)[1..] == r;
  }

  lemma SwapSingletons<T>(a: seq<T>, b: seq<T>, w: seq<T>)
    requires a == [] || b == []
    ensures a + (b + w) == b + (a + w)
  {
  }

  /** Stability: elements with equal keys keep their relative order. */
  lemma {:induction false} SortByStable<T>(s: seq<T>, key: T -> Key, k: Key)
    ensures WithKey(SortBy(s, key), key, k) == WithKey(s, key, k)
  {
    if s != [] {
      SortByStable(s[1..], key, k);
      InsertWithKey(s[0], SortBy(s[1..], key), key, k);
    }
  }
}
