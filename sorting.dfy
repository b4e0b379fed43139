/**
 * List.sort with Comparator.comparingDouble(key): a stable sort on a real-valued key,
 * written as an insertion sort that places each element after every earlier one whose key
 * is not larger.
 */
module Sorting {

  predicate SortedBy<T>(s: seq<T>, key: T -> real)
  {
    forall i, j :: 0 <= i < j < |s| ==> key(s[i]) <= key(s[j])
  }

  /** s with x inserted before the first element whose key is larger than x's. */
  function InsertBy<T>(s: seq<T>, x: T, key: T -> real): (r: seq<T>)
    ensures multiset(r) == multiset(s) + multiset{x}
    ensures |r| == |s| + 1
  {
    if s == [] then [x]
    else if key(s[0]) > key(x) then [x] + s
    else
      assert s == [s[0]] + s[1..];
      [s[0]] + InsertBy(s[1..], x, key)
  }

  /** A lower bound of the keys of s and of x bounds the keys after the insertion. */
  lemma {:induction false} InsertByBound<T>(s: seq<T>, x: T, key: T -> real, b: real)
    requires b <= key(x) && forall i :: 0 <= i < |s| ==> b <= key(s[i])
    ensures forall i :: 0 <= i < |s| + 1 ==> b <= key(InsertBy(s, x, key)[i])
  {
    if s != [] && key(s[0]) <= key(x) {
      InsertByBound(s[1..], x, key, b);
      var rest := InsertBy(s[1..], x, key);
      assert forall i :: 1 <= i < |s| + 1 ==> InsertBy(s, x, key)[i] == rest[i - 1];
    }
  }

  /** Inserting into a sorted list keeps it sorted. */
  lemma {:induction false} InsertBySorted<T>(s: seq<T>, x: T, key: T -> real)
    requires SortedBy(s, key)
    ensures SortedBy(InsertBy(s, x, key), key)
  {
    if s != [] && key(s[0]) <= key(x) {
      var rest := InsertBy(s[1..], x, key);
      InsertBySorted(s[1..], x, key);
      InsertByBound(s[1..], x, key, key(s[0]));
      var r := [s[0]] + rest;
      assert forall i :: 1 <= i < |r| ==> r[i] == rest[i - 1];
    }
  }

  /** The sorted list: each element in turn inserted into the sorted list of those before it. */
  function SortBy<T>(s: seq<T>, key: T -> real): (r: seq<T>)
    ensures multiset(r) == multiset(s)
    ensures |r| == |s|
  {
    if s == [] then []
    else
      var front := s[..|s| - 1];
      assert s == front + [s[|s| - 1]];
      InsertBy(SortBy(front, key), s[|s| - 1], key)
  }

  /** The result is sorted and, being a permutation, holds exactly the elements of s. */
  lemma {:induction false} SortBySorted<T>(s: seq<T>, key: T -> real)
    ensures SortedBy(SortBy(s, key), key)
    ensures forall x :: x in SortBy(s, key) <==> x in s
  {
    if s != [] {
      SortBySorted(s[..|s| - 1], key);
      InsertBySorted(SortBy(s[..|s| - 1], key), s[|s| - 1], key);
    }
    forall x
      ensures x in SortBy(s, key) <==> x in s
    {
      assert x in SortBy(s, key) <==> x in multiset(SortBy(s, key));
      assert x in s <==> x in multiset(s);
    }
  }

  // ------------------------------------------------------------------ stability

  /** x alone when its key is v, and nothing otherwise. */
  function KeyOnly<T>(x: T, key: T -> real, v: real): seq<T>
  {
    if key(x) == v then [x] else []
  }

  /** The elements of s whose key is v, in the order of s. */
  function KeyFilter<T>(s: seq<T>, key: T -> real, v: real): (r: seq<T>)
    ensures |r| <= |s|
  {
    if s == [] then [] else KeyOnly(s[0], key, v) + KeyFilter(s[1..], key, v)
  }

  lemma KeyFilterCons<T>(x: T, s: seq<T>, key: T -> real, v: real)
    ensures KeyFilter([x] + s, key, v) == KeyOnly(x, key, v) + KeyFilter(s, key, v)
  {
    assert ([x] + s)[1..] == s;
  }

  lemma {:induction false} KeyFilterAppend<T>(a: seq<T>, b: seq<T>, key: T -> real, v: real)
    ensures KeyFilter(a + b, key, v) == KeyFilter(a, key, v) + KeyFilter(b, key, v)
  {
    if a != [] {
      assert a + b == [a[0]] + (a[1..] + b);
      assert a == [a[0]] + a[1..];
      KeyFilterCons(a[0], a[1..] + b, key, v);
      KeyFilterCons(a[0], a[1..], key, v);
      KeyFilterAppend(a[1..], b, key, v);
    } else {
      assert a + b == b;
    }
  }

  /** A list none of whose keys is v has no element of key v. */
  lemma {:induction false} KeyFilterNone<T>(s: seq<T>, key: T -> real, v: real)
    requires forall i :: 0 <= i < |s| ==> key(s[i]) != v
    ensures KeyFilter(s, key, v) == []
  {
    if s != [] {
      assert forall i :: 0 <= i < |s| - 1 ==> s[1..][i] == s[i + 1];
      KeyFilterNone(s[1..], key, v);
    }
  }

  lemma SortedTail<T>(s: seq<T>, key: T -> real)
    requires s != [] && SortedBy(s, key)
    ensures SortedBy(s[1..], key)
    ensures forall i :: 0 <= i < |s| ==> key(s[0]) <= key(s[i])
  {
    assert forall i :: 0 <= i < |s| - 1 ==> s[1..][i] == s[i + 1];
  }

  /** Inserting x into a sorted list puts it after every element of equal key. */
  lemma {:induction false} InsertByStable<T>(s: seq<T>, x: T, key: T -> real, v: real)
    requires SortedBy(s, key)
    ensures KeyFilter(InsertBy(s, x, key), key, v) == KeyFilter(s, key, v) + KeyOnly(x, key, v)
    decreases |s|, 1
  {
    if s == [] {
      assert InsertBy(s, x, key) == [x] + [];
      KeyFilterCons(x, [], key, v);
      assert KeyOnly(x, key, v) + [] == [] + KeyOnly(x, key, v);
    } else if key(s[0]) > key(x) {
      InsertFirstStable(s, x, key, v);
    } else {
      InsertLaterStable(s, x, key, v);
    }
  }

  lemma InsertFirstStable<T>(s: seq<T>, x: T, key: T -> real, v: real)
    requires SortedBy(s, key) && s != [] && key(s[0]) > key(x)
    ensures KeyFilter(InsertBy(s, x, key), key, v) == KeyFilter(s, key, v) + KeyOnly(x, key, v)
  {
    assert InsertBy(s, x, key) == [x] + s;
    KeyFilterCons(x, s, key, v);
    if key(x) == v {
      SortedTail(s, key);
      KeyFilterNone(s, key, v);
      assert KeyOnly(x, key, v) + [] == [] + KeyOnly(x, key, v);
    } else {
      assert [] + KeyFilter(s, key, v) == KeyFilter(s, key, v) + [];
    }
  }

  lemma {:induction false} InsertLaterStable<T>(s: seq<T>, x: T, key: T -> real, v: real)
    requires SortedBy(s, key) && s != [] && key(s[0]) <= key(x)
    ensures KeyFilter(InsertBy(s, x, key), key, v) == KeyFilter(s, key, v) + KeyOnly(x, key, v)
    decreases |s|, 0
  {
    SortedTail(s, key);
    InsertByStable(s[1..], x, key, v);
    InsertLaterFilter(s, x, key, v);
  }

  /** Past a first element of key at most x's, the insertion keeps that element in front. */
  lemma InsertLaterFilter<T>(s: seq<T>, x: T, key: T -> real, v: real)
    requires s != [] && key(s[0]) <= key(x)
    ensures KeyFilter(InsertBy(s, x, key), key, v) ==
            KeyOnly(s[0], key, v) + KeyFilter(InsertBy(s[1..], x, key), key, v)
    ensures KeyFilter(s, key, v) == KeyOnly(s[0], key, v) + KeyFilter(s[1..], key, v)
  {
    KeyFilterCons(s[0], InsertBy(s[1..], x, key), key, v);
  }

  /**
   * The sort is stable: for every key value, the elements with that key appear in the sorted
   * list in the same order as in s.
   */
  lemma {:induction false} SortByStable<T>(s: seq<T>, key: T -> real, v: real)
    ensures KeyFilter(SortBy(s, key), key, v) == KeyFilter(s, key, v)
  {
    if s != [] {
      var front, last := s[..|s| - 1], s[|s| - 1];
      assert s == front + [last];
      KeyFilterAppend(front, [last], key, v);
      KeyFilterCons(last, [], key, v);
      assert [last] + [] == [last];
      SortByStable(front, key, v);
      SortBySorted(front, key);
      InsertByStable(SortBy(front, key), last, key, v);
    }
  }
}
