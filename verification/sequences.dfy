/** The optional value returned by lookups (`undefined` in the source). */
module Optional {
  datatype Option<T> = None | Some(value: T)
}

/**
 * The JavaScript array operations the storage layer and the streak engine are
 * built from, over elements identified by an integer key (an entry's day number):
 * `find` (first element with a given key), `sort` with a key comparator (stable,
 * as JavaScript's sort is), and `filter`.
 */
module Sequences {
  import opened Optional

  /** No two elements share a key. */
  ghost predicate DistinctKeys<T>(s: seq<T>, key: T -> int) {
    forall i, j :: 0 <= i < j < |s| ==> key(s[i]) != key(s[j])
  }

  lemma TailDistinct<T>(s: seq<T>, key: T -> int)
    requires s != [] && DistinctKeys(s, key)
    ensures DistinctKeys(s[1..], key)
  {
    forall i, j | 0 <= i < j < |s| - 1 ensures key(s[1..][i]) != key(s[1..][j]) {
      assert s[1..][i] == s[i + 1] && s[1..][j] == s[j + 1];
    }
  }

  // ----- find -----

  /** `s.find(e => key(e) == d)`: the first element whose key is `d`. */
  function FindFirst<T>(s: seq<T>, key: T -> int, d: int): Option<T> {
    if s == [] then None
    else if key(s[0]) == d then Some(s[0])
    else FindFirst(s[1..], key, d)
  }

  /** The search fails exactly when no element has key `d`; what it finds is an element with key `d`. */
  lemma {:induction false} FindFirstSpec<T>(s: seq<T>, key: T -> int, d: int)
    ensures FindFirst(s, key, d).None? <==> forall k :: 0 <= k < |s| ==> key(s[k]) != d
    ensures FindFirst(s, key, d).Some? ==> FindFirst(s, key, d).value in s && key(FindFirst(s, key, d).value) == d
  {
    if s != [] && key(s[0]) != d {
      FindFirstSpec(s[1..], key, d);
      assert forall k :: 1 <= k < |s| ==> s[k] == s[1..][k - 1];
    }
  }

  /** What the search finds is the first element with that key. */
  lemma {:induction false} FindIsFirst<T>(s: seq<T>, key: T -> int, d: int, k: int)
    requires 0 <= k < |s| && key(s[k]) == d
    requires forall j :: 0 <= j < k ==> key(s[j]) != d
    ensures FindFirst(s, key, d) == Some(s[k])
  {
    if k > 0 {
      assert forall j :: 0 <= j < k - 1 ==> s[1..][j] == s[j + 1];
      FindIsFirst(s[1..], key, d, k - 1);
    }
  }

  /** With distinct keys, the search for an element's key finds that element. */
  lemma {:induction false} FindUnique<T>(s: seq<T>, key: T -> int, k: int)
    requires DistinctKeys(s, key) && 0 <= k < |s|
    ensures FindFirst(s, key, key(s[k])) == Some(s[k])
  {
    if k > 0 {
      assert key(s[0]) != key(s[k]);
      TailDistinct(s, key);
      FindUnique(s[1..], key, k - 1);
    }
  }

  /** With distinct keys, reordering does not change what the search finds. */
  lemma FindPermutation<T>(s: seq<T>, t: seq<T>, key: T -> int, d: int)
    requires DistinctKeys(s, key) && DistinctKeys(t, key) && multiset(s) == multiset(t)
    ensures FindFirst(s, key, d) == FindFirst(t, key, d)
  {
    FindFirstSpec(s, key, d);
    FindFirstSpec(t, key, d);
    var r := FindFirst(s, key, d);
    if r.Some? {
      var k :| 0 <= k < |s| && s[k] == r.value;
      FindUnique(s, key, k);
      assert s[k] in multiset(t);
      var j :| 0 <= j < |t| && t[j] == s[k];
      FindUnique(t, key, j);
    } else {
      forall j | 0 <= j < |t| ensures key(t[j]) != d {
        assert t[j] in multiset(s);
      }
    }
  }

  // ----- stable sort -----

  ghost predicate SortedBy<T>(s: seq<T>, key: T -> int) {
    forall i, j :: 0 <= i < j < |s| ==> key(s[i]) <= key(s[j])
  }

  lemma TailSorted<T>(s: seq<T>, key: T -> int)
    requires s != [] && SortedBy(s, key)
    ensures SortedBy(s[1..], key)
  {
    forall i, j | 0 <= i < j < |s| - 1 ensures key(s[1..][i]) <= key(s[1..][j]) {
      assert s[1..][i] == s[i + 1] && s[1..][j] == s[j + 1];
    }
  }

  /** Puts `x` in front of the first element whose key is not smaller, so `x` stays ahead of equal keys. */
  function Insert<T>(x: T, s: seq<T>, key: T -> int): (r: seq<T>)
    ensures |r| == |s| + 1
  {
    if s == [] || key(x) <= key(s[0]) then [x] + s
    else [s[0]] + Insert(x, s[1..], key)
  }

  /** Insertion adds exactly `x`. */
  lemma {:induction false} InsertPermutation<T>(x: T, s: seq<T>, key: T -> int)
    ensures multiset(Insert(x, s, key)) == multiset(s) + multiset{x}
  {
    if s != [] && key(x) > key(s[0]) {
      InsertPermutation(x, s[1..], key);
      assert s == [s[0]] + s[1..];
    }
  }

  /** Every element of the result is `x` or an element of `s`. */
  lemma InsertMembers<T>(x: T, s: seq<T>, key: T -> int, y: T)
    requires y in Insert(x, s, key)
    ensures y == x || y in s
  {
    InsertPermutation(x, s, key);
    assert y in multiset(Insert(x, s, key));
  }

  /** Insertion into a sorted list keeps it sorted. */
  lemma {:induction false} InsertSorted<T>(x: T, s: seq<T>, key: T -> int)
    requires SortedBy(s, key)
    ensures SortedBy(Insert(x, s, key), key)
  {
    if s != [] && key(x) > key(s[0]) {
      var tail := s[1..];
      TailSorted(s, key);
      InsertSorted(x, tail, key);
      var rest := Insert(x, tail, key);
      var r := [s[0]] + rest;
      forall i, j | 0 <= i < j < |r| ensures key(r[i]) <= key(r[j]) {
        assert r[j] == rest[j - 1];
        if i > 0 {
          assert r[i] == rest[i - 1];
        } else {
          InsertMembers(x, tail, key, rest[j - 1]);
          if rest[j - 1] != x {
            var m :| 0 <= m < |tail| && tail[m] == rest[j - 1];
            assert s[m + 1] == tail[m];
          }
        }
      }
    } else if s != [] {
      var r := [x] + s;
      forall i, j | 0 <= i < j < |r| ensures key(r[i]) <= key(r[j]) {
        assert r[j] == s[j - 1];
        if i > 0 {
          assert r[i] == s[i - 1];
        } else {
          assert key(s[0]) <= key(s[j - 1]);
        }
      }
    }
  }

  /** A stable sort by key (insertion sort). */
  function SortBy<T>(s: seq<T>, key: T -> int): (r: seq<T>)
    ensures |r| == |s|
  {
    if s == [] then []
    else Insert(s[0], SortBy(s[1..], key), key)
  }

  /** The sort returns the same elements, in order of their keys. */
  lemma {:induction false} SortBySpec<T>(s: seq<T>, key: T -> int)
    ensures SortedBy(SortBy(s, key), key)
    ensures multiset(SortBy(s, key)) == multiset(s)
  {
    if s != [] {
      SortBySpec(s[1..], key);
      InsertSorted(s[0], SortBy(s[1..], key), key);
      InsertPermutation(s[0], SortBy(s[1..], key), key);
      assert s == [s[0]] + s[1..];
    }
  }

  /** Sorting a list that is already in order returns it unchanged. */
  lemma {:induction false} SortIsIdentityOnSorted<T>(s: seq<T>, key: T -> int)
    requires SortedBy(s, key)
    ensures SortBy(s, key) == s
  {
    if s != [] {
      TailSorted(s, key);
      SortIsIdentityOnSorted(s[1..], key);
      assert s == [s[0]] + s[1..];
    }
  }

  lemma {:induction false} InsertKeepsDistinct<T>(x: T, s: seq<T>, key: T -> int)
    requires DistinctKeys(s, key)
    requires forall y :: y in s ==> key(y) != key(x)
    ensures DistinctKeys(Insert(x, s, key), key)
  {
    if s == [] || key(x) <= key(s[0]) {
      var r := [x] + s;
      forall i, j | 0 <= i < j < |r| ensures key(r[i]) != key(r[j]) {
        assert r[j] == s[j - 1];
        if i > 0 {
          assert r[i] == s[i - 1];
        }
      }
    } else {
      var tail := s[1..];
      TailDistinct(s, key);
      InsertKeepsDistinct(x, tail, key);
      var rest := Insert(x, tail, key);
      var r := [s[0]] + rest;
      forall i, j | 0 <= i < j < |r| ensures key(r[i]) != key(r[j]) {
        if i > 0 {
          assert r[i] == rest[i - 1] && r[j] == rest[j - 1];
        } else {
          var y := rest[j - 1];
          assert r[j] == y;
          InsertMembers(x, tail, key, y);
          if y != x {
            var m :| 0 <= m < |tail| && tail[m] == y;
            assert s[m + 1] == y;
          }
        }
      }
    }
  }

  /** Sorting keeps keys distinct. */
  lemma {:induction false} SortKeepsDistinct<T>(s: seq<T>, key: T -> int)
    requires DistinctKeys(s, key)
    ensures DistinctKeys(SortBy(s, key), key)
  {
    if s != [] {
      var tail := s[1..];
      TailDistinct(s, key);
      SortKeepsDistinct(tail, key);
      SortBySpec(tail, key);
      var sorted := SortBy(tail, key);
      forall y | y in sorted ensures key(y) != key(s[0]) {
        assert y in multiset(tail);
        var m :| 0 <= m < |tail| && tail[m] == y;
        assert s[m + 1] == y;
      }
      InsertKeepsDistinct(s[0], sorted, key);
    }
  }

  // ----- filter -----

  /** `s.filter(p)`: the elements satisfying `p`, in their original order. */
  function Filter<T>(s: seq<T>, p: T -> bool): (r: seq<T>)
    ensures |r| <= |s|
  {
    if s == [] then []
    else if p(s[0]) then [s[0]] + Filter(s[1..], p)
    else Filter(s[1..], p)
  }

  /** The filter keeps exactly the elements that satisfy `p`. */
  lemma {:induction false} FilterSpec<T>(s: seq<T>, p: T -> bool, x: T)
    ensures x in Filter(s, p) <==> x in s && p(x)
  {
    if s != [] {
      FilterSpec(s[1..], p, x);
      assert s == [s[0]] + s[1..];
    }
  }

  lemma {:induction false} FilterAppend<T>(s: seq<T>, t: seq<T>, p: T -> bool)
    ensures Filter(s + t, p) == Filter(s, p) + Filter(t, p)
  {
    if s == [] {
      assert s + t == t;
    } else {
      assert (s + t)[0] == s[0];
      assert (s + t)[1..] == s[1..] + t;
      FilterAppend(s[1..], t, p);
    }
  }

  /** A filter that every element passes returns the list unchanged. */
  lemma {:induction false} FilterAllPass<T>(s: seq<T>, p: T -> bool)
    requires forall k :: 0 <= k < |s| ==> p(s[k])
    ensures Filter(s, p) == s
  {
    if s != [] {
      assert forall k :: 0 <= k < |s| - 1 ==> s[1..][k] == s[k + 1];
      FilterAllPass(s[1..], p);
      assert s == [s[0]] + s[1..];
    }
  }

  /** Inserting `x` adds one to the number of passing elements exactly when `x` passes. */
  lemma {:induction false} FilterCountInsert<T>(x: T, s: seq<T>, key: T -> int, p: T -> bool)
    ensures |Filter(Insert(x, s, key), p)| == |Filter(s, p)| + (if p(x) then 1 else 0)
  {
    if s != [] && key(x) > key(s[0]) {
      FilterCountInsert(x, s[1..], key, p);
      assert ([s[0]] + Insert(x, s[1..], key))[1..] == Insert(x, s[1..], key);
    } else {
      assert ([x] + s)[1..] == s;
    }
  }

  /** Sorting does not change how many elements pass a filter. */
  lemma {:induction false} FilterCountSort<T>(s: seq<T>, key: T -> int, p: T -> bool)
    ensures |Filter(SortBy(s, key), p)| == |Filter(s, p)|
  {
    if s != [] {
      FilterCountSort(s[1..], key, p);
      FilterCountInsert(s[0], SortBy(s[1..], key), key, p);
    }
  }

  /** The filter's elements sit at strictly increasing positions of the list. */
  lemma {:induction false} FilterIndices<T>(s: seq<T>, p: T -> bool) returns (idx: seq<int>)
    ensures |idx| == |Filter(s, p)|
    ensures forall k :: 0 <= k < |idx| ==> 0 <= idx[k] < |s| && Filter(s, p)[k] == s[idx[k]]
    ensures forall i, j :: 0 <= i < j < |idx| ==> idx[i] < idx[j]
  {
    if s == [] {
      idx := [];
    } else {
      var rest := FilterIndices(s[1..], p);
      var shifted := seq(|rest|, k requires 0 <= k < |rest| => rest[k] + 1);
      if p(s[0]) {
        idx := [0] + shifted;
      } else {
        idx := shifted;
      }
    }
  }

  /** Filtering keeps keys distinct when the elements that pass have pairwise different keys. */
  lemma {:induction false} FilterKeepsDistinct<T>(s: seq<T>, key: T -> int, p: T -> bool)
    requires forall i, j :: 0 <= i < j < |s| && p(s[i]) && p(s[j]) ==> key(s[i]) != key(s[j])
    ensures DistinctKeys(Filter(s, p), key)
  {
    if s != [] {
      var tail := s[1..];
      assert forall k :: 0 <= k < |tail| ==> tail[k] == s[k + 1];
      FilterKeepsDistinct(tail, key, p);
      var rest := Filter(tail, p);
      if p(s[0]) {
        var r := [s[0]] + rest;
        forall i, j | 0 <= i < j < |r| ensures key(r[i]) != key(r[j]) {
          assert r[j] == rest[j - 1];
          FilterSpec(tail, p, rest[j - 1]);
          if i > 0 {
            assert r[i] == rest[i - 1];
          } else {
            var m :| 0 <= m < |tail| && tail[m] == r[j];
            assert s[m + 1] == r[j];
          }
        }
      }
    }
  }

  /** Filtering twice, where the second test implies the first, is filtering once by the second. */
  lemma {:induction false} FilterNarrower<T>(s: seq<T>, p: T -> bool, q: T -> bool)
    requires forall k :: 0 <= k < |s| && q(s[k]) ==> p(s[k])
    ensures Filter(Filter(s, p), q) == Filter(s, q)
  {
    if s != [] {
      assert forall k :: 0 <= k < |s| - 1 ==> s[1..][k] == s[k + 1];
      FilterNarrower(s[1..], p, q);
      if p(s[0]) {
        assert ([s[0]] + Filter(s[1..], p))[1..] == Filter(s[1..], p);
      }
    }
  }

  /** Filtering a sorted list keeps it sorted. */
  lemma FilterKeepsSorted<T>(s: seq<T>, p: T -> bool, key: T -> int)
    requires SortedBy(s, key)
    ensures SortedBy(Filter(s, p), key)
  {
    var idx := FilterIndices(s, p);
  }

  /** Two sorted lists with pairwise different keys and the same elements start with the same element. */
  lemma SameHead<T>(s: seq<T>, t: seq<T>, key: T -> int)
    requires SortedBy(s, key) && SortedBy(t, key) && DistinctKeys(t, key)
    requires forall x :: x in s <==> x in t
    requires s != []
    ensures t != [] && s[0] == t[0]
  {
    assert s[0] in t;
    var j :| 0 <= j < |t| && t[j] == s[0];
    assert t[0] in s;
    var i :| 0 <= i < |s| && s[i] == t[0];
    assert key(s[0]) <= key(s[i]) == key(t[0]) <= key(t[j]) == key(s[0]);
  }

  /** With equal heads and pairwise different keys, the same elements remain after the heads. */
  lemma SameTail<T>(s: seq<T>, t: seq<T>, key: T -> int)
    requires DistinctKeys(s, key) && DistinctKeys(t, key)
    requires forall x :: x in s <==> x in t
    requires s != [] && t != [] && s[0] == t[0]
    ensures forall x :: x in s[1..] <==> x in t[1..]
  {
    forall x ensures x in s[1..] ==> x in t[1..] {
      if x in s[1..] {
        var k :| 1 <= k < |s| && s[k] == x;
        assert x in t;
      }
    }
    forall x ensures x in t[1..] ==> x in s[1..] {
      if x in t[1..] {
        var k :| 1 <= k < |t| && t[k] == x;
        assert x in s;
      }
    }
  }

  /** Two sorted lists with pairwise different keys and the same elements are equal. */
  lemma {:induction false} SortedUnique<T>(s: seq<T>, t: seq<T>, key: T -> int)
    requires SortedBy(s, key) && DistinctKeys(s, key)
    requires SortedBy(t, key) && DistinctKeys(t, key)
    requires forall x :: x in s <==> x in t
    ensures s == t
    decreases |s|
  {
    assert t != [] ==> t[0] in s;
    if s != [] {
      SameHead(s, t, key);
      SameTail(s, t, key);
      TailSorted(s, key);
      TailSorted(t, key);
      TailDistinct(s, key);
      TailDistinct(t, key);
      SortedUnique(s[1..], t[1..], key);
      assert s == [s[0]] + s[1..] && t == [t[0]] + t[1..];
    }
  }

  /** Two tests that agree on every element select the same elements. */
  lemma {:induction false} FilterCongruent<T>(s: seq<T>, p: T -> bool, q: T -> bool)
    requires forall k :: 0 <= k < |s| ==> p(s[k]) == q(s[k])
    ensures Filter(s, p) == Filter(s, q)
  {
    if s != [] {
      assert forall k :: 0 <= k < |s| - 1 ==> s[1..][k] == s[k + 1];
      FilterCongruent(s[1..], p, q);
    }
  }

  /** A filter that no element passes returns the empty list. */
  lemma {:induction false} FilterNonePass<T>(s: seq<T>, p: T -> bool)
    requires forall k :: 0 <= k < |s| ==> !p(s[k])
    ensures Filter(s, p) == []
  {
    if s != [] {
      assert forall k :: 0 <= k < |s| - 1 ==> s[1..][k] == s[k + 1];
      FilterNonePass(s[1..], p);
    }
  }

  // ----- counting distinct keys -----

  /** Index of an element with the largest key. */
  function MaxKeyIndex<T>(s: seq<T>, key: T -> int): (m: int)
    requires s != []
    ensures 0 <= m < |s|
    ensures forall k :: 0 <= k < |s| ==> key(s[k]) <= key(s[m])
  {
    if |s| == 1 then 0
    else
      var m := MaxKeyIndex(s[1..], key);
      if key(s[0]) >= key(s[m + 1]) then 0 else m + 1
  }

  /** Pigeonhole: elements with pairwise different keys, all in [lo, hi], number at most hi - lo + 1. */
  lemma {:induction false} DistinctKeysBound<T>(s: seq<T>, key: T -> int, lo: int, hi: int)
    requires DistinctKeys(s, key)
    requires forall k :: 0 <= k < |s| ==> lo <= key(s[k]) <= hi
    ensures |s| <= if hi < lo then 0 else hi - lo + 1
    decreases |s|
  {
    if s != [] {
      // drop the element with the largest key; the others fit in [lo, that key - 1]
      var m := MaxKeyIndex(s, key);
      var rest := s[..m] + s[m + 1..];
      assert forall k :: 0 <= k < |rest| ==> rest[k] == if k < m then s[k] else s[k + 1];
      assert DistinctKeys(rest, key) by {
        forall i, j | 0 <= i < j < |rest| ensures key(rest[i]) != key(rest[j]) {
          if j < m { } else if i < m { assert rest[j] == s[j + 1]; } else { assert rest[i] == s[i + 1]; }
        }
      }
      forall k | 0 <= k < |rest| ensures lo <= key(rest[k]) <= key(s[m]) - 1 {
        if k < m { assert key(s[k]) != key(s[m]); } else { assert key(s[k + 1]) != key(s[m]); }
      }
      DistinctKeysBound(rest, key, lo, key(s[m]) - 1);
    }
  }
}
