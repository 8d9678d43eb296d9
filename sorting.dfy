/** A sort by key, standing for the standard library's `sort_unstable`,
    `sort_unstable_by_key` and `sort_unstable_by`. The library leaves the order
    of equal keys unspecified; this definition keeps their input order, which is
    one of the orders the library may produce. */
module Sorting {

  ghost predicate SortedBy<T>(s: seq<T>, key: T -> int)
  {
    forall i, j :: 0 <= i < j < |s| ==> key(s[i]) <= key(s[j])
  }

  /** `s` in non-decreasing order of `key`, as a permutation of `s`. */
  function SortBy<T>(s: seq<T>, key: T -> int): (r: seq<T>)
    ensures multiset(r) == multiset(s) && |r| == |s|
    ensures SortedBy(r, key)
  {
    if s == [] then []
    else
      assert s == [s[0]] + s[1..];
      Insert(s[0], SortBy(s[1..], key), key)
  }

  function Insert<T>(x: T, s: seq<T>, key: T -> int): (r: seq<T>)
    requires SortedBy(s, key)
    ensures multiset(r) == multiset(s) + multiset{x} && |r| == |s| + 1
    ensures SortedBy(r, key)
  {
    if s == [] then [x]
    else if key(x) <= key(s[0]) then [x] + s
    else
      var t := Insert(x, s[1..], key);
      assert s == [s[0]] + s[1..];
      BelowAll(s[0], x, s[1..], t, key);
      [s[0]] + t
  }

  /** A key at most that of `x` and of every element of `u` is at most that of
      every element of a permutation of `u` plus `x`. */
  lemma BelowAll<T>(h: T, x: T, u: seq<T>, t: seq<T>, key: T -> int)
    requires multiset(t) == multiset(u) + multiset{x}
    requires key(h) <= key(x) && forall k :: 0 <= k < |u| ==> key(h) <= key(u[k])
    ensures forall k :: 0 <= k < |t| ==> key(h) <= key(t[k])
  {
    forall k | 0 <= k < |t| ensures key(h) <= key(t[k]) {
      assert t[k] in multiset(t);
      if t[k] != x {
        assert t[k] in multiset(u);
      }
    }
  }

  /** The position an element of `s` has in a permutation `t` of it. */
  lemma Moved<T>(s: seq<T>, t: seq<T>, p: nat) returns (q: nat)
    requires multiset(s) == multiset(t) && p < |s|
    ensures q < |t| && t[q] == s[p]
  {
    assert s[p] in multiset(t);
    q :| 0 <= q < |t| && t[q] == s[p];
  }
}
