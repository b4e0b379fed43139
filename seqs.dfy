/** Order-preserving filtering of a list, as a stream filter or an appending loop does it. */
module Seqs {

  function Filter<T(!new)>(s: seq<T>, p: T -> bool): (r: seq<T>)
    ensures |r| <= |s|
    ensures forall x :: x in r <==> x in s && p(x)
  {
    if s == [] then []
    else
      var front := s[..|s| - 1];
      assert s == front + [s[|s| - 1]];
      Filter(front, p) + (if p(s[|s| - 1]) then [s[|s| - 1]] else [])
  }

  /** Filtering keeps every copy of a kept element and drops every copy of the others. */
  lemma {:induction false} FilterCount<T(!new)>(s: seq<T>, p: T -> bool, x: T)
    ensures multiset(Filter(s, p))[x] == if p(x) then multiset(s)[x] else 0
  {
    if s != [] {
      var front := s[..|s| - 1];
      assert s == front + [s[|s| - 1]];
      FilterCount(front, p, x);
    }
  }

  /** Hence filtering two permutations of one list gives permutations of one list. */
  lemma FilterPermutation<T(!new)>(s: seq<T>, t: seq<T>, p: T -> bool)
    requires multiset(s) == multiset(t)
    ensures multiset(Filter(s, p)) == multiset(Filter(t, p))
  {
    forall x
      ensures multiset(Filter(s, p))[x] == multiset(Filter(t, p))[x]
    {
      FilterCount(s, p, x);
      FilterCount(t, p, x);
    }
  }

  /** The lists f gives for the elements of s, one after another, as a stream flatMap does. */
  function FlatMap<T(!new), U(!new)>(s: seq<T>, f: T -> seq<U>): seq<U>
  {
    if s == [] then [] else FlatMap(s[..|s| - 1], f) + f(s[|s| - 1])
  }

  /** The flattened list holds exactly what f gives for some element of s. */
  lemma {:induction false} FlatMapMembers<T(!new), U(!new)>(s: seq<T>, f: T -> seq<U>)
    ensures forall y :: y in FlatMap(s, f) <==> exists x :: x in s && y in f(x)
  {
    if s != [] {
      var front := s[..|s| - 1];
      assert s == front + [s[|s| - 1]];
      FlatMapMembers(front, f);
    }
  }

  lemma {:induction false} FlatMapAppend<T(!new), U(!new)>(a: seq<T>, b: seq<T>, f: T -> seq<U>)
    ensures FlatMap(a + b, f) == FlatMap(a, f) + FlatMap(b, f)
  {
    if b == [] {
      assert a + b == a;
    } else {
      assert (a + b)[..|a + b| - 1] == a + b[..|b| - 1];
      FlatMapAppend(a, b[..|b| - 1], f);
    }
  }

  /** Taking one element out of s takes exactly its list out of the flattened list. */
  lemma FlatMapRemove<T(!new), U(!new)>(t: seq<T>, i: nat, f: T -> seq<U>)
    requires i < |t|
    ensures multiset(FlatMap(t, f)) == multiset(FlatMap(t[..i] + t[i + 1..], f)) + multiset(f(t[i]))
  {
    var left, right := t[..i], t[i + 1..];
    assert t == (left + [t[i]]) + right;
    assert FlatMap([t[i]], f) == f(t[i]) by {
      assert [t[i]][..0] == [];
    }
    FlatMapAppend(left, [t[i]], f);
    FlatMapAppend(left + [t[i]], right, f);
    FlatMapAppend(left, right, f);
  }

  /** Two lists with the same elements once one element is taken from each. */
  lemma RemoveSame<T>(s: seq<T>, t: seq<T>, i: nat)
    requires s != [] && i < |t| && t[i] == s[|s| - 1] && multiset(s) == multiset(t)
    ensures multiset(t[..i] + t[i + 1..]) == multiset(s[..|s| - 1])
  {
    var front, last := s[..|s| - 1], s[|s| - 1];
    assert s == front + [last];
    assert t == t[..i] + [last] + t[i + 1..];
    var rest := t[..i] + t[i + 1..];
    assert multiset(t) == multiset(rest) + multiset{last};
    assert multiset(s) == multiset(front) + multiset{last};
    assert multiset(rest) == multiset(t) - multiset{last};
    assert multiset(front) == multiset(s) - multiset{last};
  }

  /** Flattening two permutations of one list gives permutations of one list. */
  lemma {:induction false} FlatMapPermutation<T(!new), U(!new)>(s: seq<T>, t: seq<T>, f: T -> seq<U>)
    requires multiset(s) == multiset(t)
    ensures multiset(FlatMap(s, f)) == multiset(FlatMap(t, f))
    decreases |s|
  {
    if s == [] {
      assert |t| == |multiset(t)|;
    } else {
      var last := s[|s| - 1];
      assert last in multiset(t) by {
        assert last in multiset(s);
      }
      var i :| 0 <= i < |t| && t[i] == last;
      RemoveSame(s, t, i);
      FlatMapPermutation(s[..|s| - 1], t[..i] + t[i + 1..], f);
      FlatMapRemove(t, i, f);
    }
  }
}
