/** Newest-first ordering, as Rust's `sort_by(|a, b| b.ts.cmp(&a.ts))` and
    JavaScript's `sort((a, b) => b.ts - a.ts)` use it: a sort on a numeric
    key, descending. Both library sorts are stable; the contracts here state
    only that the result is sorted and a permutation. */
module Sorting {

  predicate SortedDesc<T>(s: seq<T>, key: T -> int)
  {
    forall i, j :: 0 <= i < j < |s| ==> key(s[i]) >= key(s[j])
  }

  /** Places `x` before the first element whose key is not greater than its
      own, so `x` precedes the equal keys already present. */
  function InsertDesc<T>(x: T, s: seq<T>, key: T -> int): (r: seq<T>)
    ensures multiset(r) == multiset(s) + multiset{x}
    ensures SortedDesc(s, key) ==> SortedDesc(r, key)
  {
    if |s| == 0 then [x]
    else if key(x) >= key(s[0]) then [x] + s
    else
      var t := InsertDesc(x, s[1..], key);
      assert s == [s[0]] + s[1..];
      assert SortedDesc(s, key) ==> forall k :: 0 <= k < |t| ==> key(s[0]) >= key(t[k]) by {
        if SortedDesc(s, key) {
          forall k | 0 <= k < |t|
            ensures key(s[0]) >= key(t[k])
          {
            assert t[k] in multiset(t);
            assert t[k] == x || t[k] in multiset(s[1..]);
          }
        }
      }
      [s[0]] + t
  }

  /** A sort, newest first: sorted and a permutation of the input. */
  function SortDesc<T>(s: seq<T>, key: T -> int): (r: seq<T>)
    ensures SortedDesc(r, key)
    ensures multiset(r) == multiset(s)
  {
    if |s| == 0 then []
    else
      assert s == [s[0]] + s[1..];
      InsertDesc(s[0], SortDesc(s[1..], key), key)
  }

  /** The sort neither loses nor adds elements. */
  lemma SortKeepsElements<T>(s: seq<T>, key: T -> int)
    ensures |SortDesc(s, key)| == |s|
    ensures forall x :: x in SortDesc(s, key) <==> x in s
  {
    var r := SortDesc(s, key);
    assert |r| == |multiset(r)| == |multiset(s)| == |s|;
    forall x
      ensures x in r <==> x in s
    {
      assert x in r <==> x in multiset(r);
      assert x in s <==> x in multiset(s);
    }
  }
}
