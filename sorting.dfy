/** `DataFrame.sort_values(key)`: reorders rows so that the key is
    non-decreasing. pandas' default sort is not stable, so nothing is promised
    about the relative order of rows with equal keys. */
module Sorting {

  predicate SortedBy<T>(s: seq<T>, key: T -> real) {
    forall i, j :: 0 <= i < j < |s| ==> key(s[i]) <= key(s[j])
  }

  function InsertBy<T(==)>(x: T, s: seq<T>, key: T -> real): (r: seq<T>)
    requires SortedBy(s, key)
    ensures SortedBy(r, key)
    ensures multiset(r) == multiset(s) + multiset{x}
  {
    if |s| == 0 then [x]
    else if key(x) <= key(s[0]) then
      SortedCons(x, s, key);
      [x] + s
    else
      var rest := InsertBy(x, s[1..], key);
      assert s == [s[0]] + s[1..];
      assert forall i :: 0 <= i < |rest| ==> key(s[0]) <= key(rest[i]) by {
        forall i | 0 <= i < |rest| ensures key(s[0]) <= key(rest[i]) {
          LowerBound(s[0], s[1..], x, rest[i], key);
        }
      }
      SortedCons(s[0], rest, key);
      [s[0]] + rest
  }

  /** A key no greater than every key of a sorted sequence can go in front. */
  lemma SortedCons<T>(h: T, s: seq<T>, key: T -> real)
    requires SortedBy(s, key)
    requires forall i :: 0 <= i < |s| ==> key(h) <= key(s[i])
    ensures SortedBy([h] + s, key)
  {
    assert forall i :: 1 <= i < |s| + 1 ==> ([h] + s)[i] == s[i - 1];
  }

  /** An element drawn from `t` or equal to `x` has a key at least `key(h)`,
      when `x` and every element of a sorted `t` do. */
  lemma LowerBound<T>(h: T, t: seq<T>, x: T, y: T, key: T -> real)
    requires SortedBy([h] + t, key) && key(h) < key(x)
    requires y in multiset(t) + multiset{x}
    ensures key(h) <= key(y)
  {
    if y != x {
      assert y in multiset(t);
      assert y in t;
      var k :| 0 <= k < |t| && t[k] == y;
      var s := [h] + t;
      assert s[0] == h && s[k + 1] == y;
      assert key(s[0]) <= key(s[k + 1]);
    }
  }

  /** The rows of `s` ordered by ascending key. */
  function SortBy<T(==)>(s: seq<T>, key: T -> real): (r: seq<T>)
    ensures SortedBy(r, key)
    ensures multiset(r) == multiset(s)
    ensures |r| == |s|
  {
    if |s| == 0 then []
    else
      var t := SortBy(s[1..], key);
      var r := InsertBy(s[0], t, key);
      InsertedAll(s, t, r);
      r
  }

  /** Inserting the head into a rearrangement of the tail rearranges the
      whole sequence. */
  lemma InsertedAll<T>(s: seq<T>, t: seq<T>, r: seq<T>)
    requires |s| > 0 && multiset(t) == multiset(s[1..])
    requires multiset(r) == multiset(t) + multiset{s[0]}
    ensures multiset(r) == multiset(s) && |r| == |s|
  {
    assert s == [s[0]] + s[1..];
    assert |r| == |multiset(r)| == |multiset(s)| == |s|;
  }
}
