/** Ordering of query results (`ORDER BY <column>`), modelled as a stable
    insertion sort on an integer key. */
module Sorting {

  predicate SortedBy<T>(s: seq<T>, key: T -> int) {
    forall i, j :: 0 <= i < j < |s| ==> key(s[i]) <= key(s[j])
  }

  /** Places `x` in front of the first element whose key is not smaller. */
  function Insert<T>(x: T, s: seq<T>, key: T -> int): (r: seq<T>)
    requires SortedBy(s, key)
    ensures SortedBy(r, key)
    ensures multiset(r) == multiset(s) + multiset{x}
    ensures |r| == |s| + 1
    ensures r[0] == x || (s != [] && r[0] == s[0])
    decreases |s|
  {
    if s == [] || key(x) <= key(s[0]) then [x] + s
    else
      var tail := Insert(x, s[1..], key);
      ConsSorted(s[0], tail, key);
      assert multiset(s) == multiset{s[0]} + multiset(s[1..]) by {
        assert s == [s[0]] + s[1..];
      }
      [s[0]] + tail
  }

  /** A sorted sequence stays sorted under a new front whose key is at most its first key. */
  lemma ConsSorted<T>(x: T, t: seq<T>, key: T -> int)
    requires SortedBy(t, key) && t != [] && key(x) <= key(t[0])
    ensures SortedBy([x] + t, key)
  {
    var r := [x] + t;
    forall i, j | 0 <= i < j < |r| ensures key(r[i]) <= key(r[j]) {
      if i == 0 {
        assert key(t[0]) <= key(t[j - 1]);
      }
    }
  }

  /** The rows of `s` in ascending key order; rows with equal keys keep their order. */
  function SortBy<T>(s: seq<T>, key: T -> int): (r: seq<T>)
    ensures SortedBy(r, key)
    ensures multiset(r) == multiset(s)
    ensures |r| == |s|
    decreases |s|
  {
    if s == [] then []
    else
      assert s == [s[0]] + s[1..];
      Insert(s[0], SortBy(s[1..], key), key)
  }

  /** Sorting rows that are already in key order leaves them as they are. */
  lemma {:induction false} SortBySorted<T>(s: seq<T>, key: T -> int)
    requires SortedBy(s, key)
    ensures SortBy(s, key) == s
    decreases |s|
  {
    if s != [] {
      SortBySorted(s[1..], key);
      assert s == [s[0]] + s[1..];
    }
  }
}
