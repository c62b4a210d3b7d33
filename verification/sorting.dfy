/**
 `ORDER BY key` as a stable insertion sort on a natural-number key. Rows with
 equal keys keep the order they had in the table.
 */
module Sorting {
  import opened Query

  predicate SortedBy<T>(s: seq<T>, key: T -> nat) {
    forall i, j :: 0 <= i < j < |s| ==> key(s[i]) <= key(s[j])
  }

  /** Puts `x` into the sorted `s`, ahead of every row whose key is not smaller. */
  function Insert<T>(x: T, s: seq<T>, key: T -> nat): (r: seq<T>)
    requires SortedBy(s, key)
    ensures SortedBy(r, key)
    ensures multiset(r) == multiset(s) + multiset{x}
    ensures r[0] == x || (|s| > 0 && r[0] == s[0])
  {
    if |s| == 0 || key(x) <= key(s[0]) then [x] + s
    else
      var rest := Insert(x, s[1..], key);
      SortedCons(s[0], rest, key);
      assert s == [s[0]] + s[1..];
      [s[0]] + rest
  }

  /** A row no greater than the head of a sorted sequence can go in front of it. */
  lemma SortedCons<T>(h: T, t: seq<T>, key: T -> nat)
    requires SortedBy(t, key)
    requires |t| > 0 ==> key(h) <= key(t[0])
    ensures SortedBy([h] + t, key)
  {
    var r := [h] + t;
    forall i, j | 0 <= i < j < |r|
      ensures key(r[i]) <= key(r[j])
    {
      if i == 0 {
        assert r[j] == t[j - 1];
        assert key(t[0]) <= key(t[j - 1]);
      } else {
        assert r[i] == t[i - 1] && r[j] == t[j - 1];
      }
    }
  }

  function SortBy<T>(s: seq<T>, key: T -> nat): (r: seq<T>)
    ensures SortedBy(r, key)
    ensures multiset(r) == multiset(s)
  {
    if |s| == 0 then []
    else
      assert s == [s[0]] + s[1..];
      Insert(s[0], SortBy(s[1..], key), key)
  }

  lemma {:induction false} InsertStable<T>(x: T, s: seq<T>, key: T -> nat, t: nat, p: T -> bool)
    requires SortedBy(s, key)
    requires forall y :: p(y) ==> key(y) == t
    ensures Filter(Insert(x, s, key), p) == if p(x) then [x] + Filter(s, p) else Filter(s, p)
  {
    if |s| == 0 || key(x) <= key(s[0]) {
      assert ([x] + s)[1..] == s;
    } else {
      assert ([s[0]] + Insert(x, s[1..], key))[1..] == Insert(x, s[1..], key);
      InsertStable(x, s[1..], key, t, p);
    }
  }

  /** Stability: among rows of one key value `t` the sort keeps table order. */
  lemma {:induction false} SortStable<T>(s: seq<T>, key: T -> nat, t: nat, p: T -> bool)
    requires forall y :: p(y) ==> key(y) == t
    ensures Filter(SortBy(s, key), p) == Filter(s, p)
  {
    if |s| > 0 {
      SortStable(s[1..], key, t, p);
      InsertStable(s[0], SortBy(s[1..], key), key, t, p);
    }
  }

  /** Sorting already ordered rows changes nothing. */
  lemma {:induction false} SortSorted<T>(s: seq<T>, key: T -> nat)
    requires SortedBy(s, key)
    ensures SortBy(s, key) == s
  {
    if |s| > 0 {
      SortSorted(s[1..], key);
      assert s == [s[0]] + s[1..];
    }
  }
}
