/**
 * Sorting by an integer key, as the library sorts of 2025/day5 use it
 * (`ranges.sort((a, b) => a.end - b.end)`, `nums.sort((a, b) => a - b)`).
 * The callers rely only on the result being sorted and a permutation of
 * the input; the order of equal keys is left open.
 */
module Sorting {

  predicate SortedBy<T>(s: seq<T>, key: T -> int)
  {
    forall p, q :: 0 <= p < q < |s| ==> key(s[p]) <= key(s[q])
  }

  /** Every element of r is one of s's, or x. */
  lemma FromInsert<T>(r: seq<T>, s: seq<T>, x: T, k: int)
    requires multiset(r) == multiset(s) + multiset{x} && 0 <= k < |r|
    ensures r[k] == x || r[k] in s
  {
    assert r[k] in multiset(r);
  }

  /** x placed into the sorted s before the first larger-keyed element. */
  function Insert<T>(x: T, s: seq<T>, key: T -> int): (r: seq<T>)
    requires SortedBy(s, key)
    ensures SortedBy(r, key)
    ensures multiset(r) == multiset(s) + multiset{x}
  {
    if s == [] then [x]
    else if key(x) <= key(s[0]) then [x] + s
    else
      var t := Insert(x, s[1..], key);
      assert s == [s[0]] + s[1..];
      forall k | 0 <= k < |t|
        ensures key(s[0]) <= key(t[k])
      {
        FromInsert(t, s[1..], x, k);
      }
      ConsSorted(s[0], t, key);
      [s[0]] + t
  }

  /** A head keyed no higher than anything in a sorted tail keeps the list sorted. */
  lemma ConsSorted<T>(h: T, t: seq<T>, key: T -> int)
    requires SortedBy(t, key) && forall k :: 0 <= k < |t| ==> key(h) <= key(t[k])
    ensures SortedBy([h] + t, key)
  {
    var r := [h] + t;
    forall p, q | 0 <= p < q < |r|
      ensures key(r[p]) <= key(r[q])
    {
      assert r[q] == t[q - 1];
      if p > 0 {
        assert r[p] == t[p - 1];
      }
    }
  }

  /** Insertion sort: a sorted permutation of s. */
  function SortBy<T>(s: seq<T>, key: T -> int): (r: seq<T>)
    ensures SortedBy(r, key)
    ensures multiset(r) == multiset(s)
  {
    if s == [] then []
    else
      assert s == s[..|s| - 1] + [s[|s| - 1]];
      Insert(s[|s| - 1], SortBy(s[..|s| - 1], key), key)
  }

  /** The in-place library sort: afterwards a holds a sorted permutation of its old contents. */
  method SortInPlace<T>(a: array<T>, key: T -> int)
    modifies a
    ensures SortedBy(a[..], key)
    ensures multiset(a[..]) == multiset(old(a[..]))
  {
    ghost var s := a[..];
    var t := SortBy(a[..], key);
    assert |t| == |multiset(t)| == |multiset(s)| == a.Length;
    for k := 0 to a.Length
      invariant a[..k] == t[..k]
    {
      a[k] := t[k];
    }
    assert a[..] == a[..a.Length] == t;
  }
}
