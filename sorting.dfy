/** `Array.prototype.sort` with a numeric comparator `(a, b) => key(a) - key(b)`:
    a stable sort by an integer key, written as insertion sort. Descending
    comparators `(a, b) => key(b) - key(a)` are the same sort on the negated
    key. */
module Sorting {

  predicate SortedBy<T>(s: seq<T>, key: T -> int)
  {
    forall i, j :: 0 <= i < j < |s| ==> key(s[i]) <= key(s[j])
  }

  /** Inserts `x` after every element whose key does not exceed its own. */
  function Insert<T>(x: T, s: seq<T>, key: T -> int): (r: seq<T>)
    requires SortedBy(s, key)
    ensures multiset(r) == multiset(s) + multiset{x}
    ensures |r| == |s| + 1
    ensures forall y :: y in r ==> y == x || y in s
    ensures x in r && forall y :: y in s ==> y in r
    ensures SortedBy(r, key)
  {
    if s == [] then [x]
    else if key(x) < key(s[0]) then [x] + s
    else
      var rest := Insert(x, s[1..], key);
      assert s == [s[0]] + s[1..];
      HeadBelowRest(s[0], s[1..], x, rest, key);
      [s[0]] + rest
  }

  /** The step of `Insert` behind the head: the head's key is below every
      key of the rest, so putting it in front keeps the list sorted. */
  lemma HeadBelowRest<T>(h: T, t: seq<T>, x: T, rest: seq<T>, key: T -> int)
    requires SortedBy([h] + t, key) && key(h) <= key(x)
    requires SortedBy(rest, key)
    requires forall y :: y in rest ==> y == x || y in t
    ensures SortedBy([h] + rest, key)
  {
    forall y | y in t
      ensures key(h) <= key(y)
    {
      var i :| 0 <= i < |t| && t[i] == y;
      assert ([h] + t)[0] == h && ([h] + t)[i + 1] == y;
    }
    var r := [h] + rest;
    forall i, j | 0 <= i < j < |r|
      ensures key(r[i]) <= key(r[j])
    {
      assert r[j] == rest[j - 1] && r[j] in rest;
      if i > 0 {
        assert r[i] == rest[i - 1];
      }
    }
  }

  /** The sorted permutation of `s`. */
  function SortBy<T>(s: seq<T>, key: T -> int): (r: seq<T>)
    ensures multiset(r) == multiset(s)
    ensures |r| == |s|
    ensures forall x :: x in r ==> x in s
    ensures forall x :: x in s ==> x in r
    ensures SortedBy(r, key)
  {
    if s == [] then []
    else
      var init := s[..|s| - 1];
      assert s == init + [s[|s| - 1]];
      Insert(s[|s| - 1], SortBy(init, key), key)
  }

  /** `s.slice(0, n)`. */
  function Take<T>(s: seq<T>, n: nat): (r: seq<T>)
    ensures |r| <= n && |r| <= |s|
    ensures r == s[..|r|]
    ensures |s| <= n ==> r == s
    ensures multiset(r) <= multiset(s)
  {
    if |s| <= n then s
    else
      assert s == s[..n] + s[n..];
      s[..n]
  }

  /** An element at two positions is counted twice. */
  lemma CountedTwice<T>(s: seq<T>, i: nat, j: nat)
    requires i < j < |s| && s[i] == s[j]
    ensures multiset(s)[s[i]] >= 2
  {
    assert s == s[..j] + s[j..];
    assert s[i] in s[..j];
    assert s[j..][0] == s[j];
  }

  /** Whatever a sorted list's first `n` elements are, every element left out
      has a key at least as large as each one kept. */
  lemma TakeSortedIsSmallest<T>(s: seq<T>, key: T -> int, n: nat, x: T)
    requires SortedBy(s, key)
    requires x in s && x !in Take(s, n)
    ensures |Take(s, n)| == n
    ensures forall y :: y in Take(s, n) ==> key(y) <= key(x)
  {
    var j :| 0 <= j < |s| && s[j] == x;
    assert j >= n;
  }
}
