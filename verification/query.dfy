/**
 The query vocabulary the data-access layer builds on: a `WHERE` clause is a
 filter over a table, `.offset(skip).limit(limit)` is a page of the filtered
 rows, and `.first()` is the first row of a filtered table. Tables are
 sequences of rows in insertion order.
 */
module Query {
  import opened Wrappers

  /** Rows of `s` satisfying `p`, in their original order. */
  function Filter<T>(s: seq<T>, p: T -> bool): (r: seq<T>)
    ensures |r| <= |s|
    ensures forall i :: 0 <= i < |r| ==> p(r[i]) && r[i] in s
    ensures forall i :: 0 <= i < |s| && p(s[i]) ==> s[i] in r
  {
    if |s| == 0 then []
    else if p(s[0]) then [s[0]] + Filter(s[1..], p)
    else Filter(s[1..], p)
  }

  function Min(a: nat, b: nat): nat {
    if a <= b then a else b
  }

  /** `OFFSET skip LIMIT limit`: drop the first `skip` rows, keep at most `limit`. */
  function Page<T>(s: seq<T>, skip: nat, limit: nat): (r: seq<T>)
    ensures |r| == if skip >= |s| then 0 else Min(limit, |s| - skip)
    ensures forall i :: 0 <= i < |r| ==> r[i] == s[skip + i]
  {
    if skip >= |s| then []
    else if skip + limit >= |s| then s[skip..]
    else s[skip..skip + limit]
  }

  /** No two rows of `s` share a `key`: what a primary key or a unique column guarantees. */
  predicate Distinct<T, K(==)>(s: seq<T>, key: T -> K) {
    forall i, j :: 0 <= i < j < |s| ==> key(s[i]) != key(s[j])
  }

  /** `.filter(key == k).first()`: the first row whose key is `k`, if any. */
  function FindBy<T, K(==)>(s: seq<T>, key: T -> K, k: K): (r: Option<T>)
    ensures r.None? <==> forall i :: 0 <= i < |s| ==> key(s[i]) != k
    ensures r.Some? ==> r.value in s && key(r.value) == k
  {
    var hits := Filter(s, x => key(x) == k);
    if |hits| == 0 then None
    else
      assert hits[0] in hits;
      Some(hits[0])
  }

  /** Filtering distributes over concatenation, so the filter keeps insertion order. */
  lemma {:induction false} FilterConcat<T>(a: seq<T>, b: seq<T>, p: T -> bool)
    ensures Filter(a + b, p) == Filter(a, p) + Filter(b, p)
  {
    if |a| == 0 {
      assert a + b == b;
    } else {
      assert (a + b)[1..] == a[1..] + b;
      FilterConcat(a[1..], b, p);
    }
  }

  /** Two pointwise-equal predicates select the same rows. */
  lemma {:induction false} FilterSame<T>(s: seq<T>, p: T -> bool, q: T -> bool)
    requires forall x :: p(x) == q(x)
    ensures Filter(s, p) == Filter(s, q)
  {
    if |s| > 0 {
      FilterSame(s[1..], p, q);
    }
  }

  /** A predicate every row satisfies leaves the table as it is. */
  lemma {:induction false} FilterKeepsAll<T>(s: seq<T>, p: T -> bool)
    requires forall i :: 0 <= i < |s| ==> p(s[i])
    ensures Filter(s, p) == s
  {
    if |s| > 0 {
      FilterKeepsAll(s[1..], p);
    }
  }

  /** A predicate no row satisfies selects nothing. */
  lemma {:induction false} FilterKeepsNone<T>(s: seq<T>, p: T -> bool)
    requires forall i :: 0 <= i < |s| ==> !p(s[i])
    ensures Filter(s, p) == []
  {
    if |s| > 0 {
      FilterKeepsNone(s[1..], p);
    }
  }

  /** Chained `.filter(p).filter(q)` is the single filter on `p AND q`. */
  lemma {:induction false} FilterThenFilter<T>(s: seq<T>, p: T -> bool, q: T -> bool, both: T -> bool)
    requires forall x :: both(x) == (p(x) && q(x))
    ensures Filter(Filter(s, p), q) == Filter(s, both)
  {
    if |s| > 0 {
      FilterThenFilter(s[1..], p, q, both);
    }
  }

  /** A filter on `p OR q` with disjoint `p`, `q` holds exactly the rows of the two filters together. */
  lemma {:induction false} FilterDisjointUnion<T>(s: seq<T>, p: T -> bool, q: T -> bool, either: T -> bool)
    requires forall x :: either(x) == (p(x) || q(x))
    requires forall x :: !(p(x) && q(x))
    ensures multiset(Filter(s, either)) == multiset(Filter(s, p)) + multiset(Filter(s, q))
  {
    if |s| > 0 {
      FilterDisjointUnion(s[1..], p, q, either);
    }
  }

  /** Under a unique key, at most one row satisfies a predicate that fixes the key. */
  lemma {:induction false} FilterUniqueKey<T, K>(s: seq<T>, key: T -> K, k: K, p: T -> bool)
    requires Distinct(s, key)
    requires forall x :: p(x) ==> key(x) == k
    ensures |Filter(s, p)| <= 1
  {
    if |s| > 0 {
      if p(s[0]) {
        // every later row has a different key, so none of them is selected
        forall j | 1 <= j < |s|
          ensures !p(s[j])
        {
          assert key(s[0]) != key(s[j]);
        }
        FilterKeepsNone(s[1..], p);
      } else {
        FilterUniqueKey(s[1..], key, k, p);
      }
    }
  }

  /** Under a unique key, looking a key up returns the one row carrying it. */
  lemma FindByUnique<T, K>(s: seq<T>, key: T -> K, i: nat)
    requires Distinct(s, key)
    requires i < |s|
    ensures FindBy(s, key, key(s[i])) == Some(s[i])
  {
    var r := FindBy(s, key, key(s[i]));
    var j :| 0 <= j < |s| && s[j] == r.value;
    if j < i {
      assert key(s[j]) != key(s[i]);
    } else if i < j {
      assert key(s[i]) != key(s[j]);
    }
  }

  /** Appending a row whose key is new keeps the key unique and makes the row findable. */
  lemma AppendFresh<T, K>(s: seq<T>, key: T -> K, x: T)
    requires FindBy(s, key, key(x)).None?
    ensures Distinct(s, key) ==> Distinct(s + [x], key)
    ensures FindBy(s + [x], key, key(x)) == Some(x)
  {
    var t := s + [x];
    assert t[|s|] == x;
  }

  /** A page starting past the end of the rows is empty. */
  lemma PagePastEnd<T>(s: seq<T>, skip: nat, limit: nat)
    requires skip >= |s|
    ensures Page(s, skip, limit) == []
  {
  }

  /** Consecutive pages tile: a page of `n` rows followed by the next page of `m` rows is one page of `n + m` rows. */
  lemma PagesTile<T>(s: seq<T>, skip: nat, n: nat, m: nat)
    ensures Page(s, skip, n) + Page(s, skip + n, m) == Page(s, skip, n + m)
  {
    var a, b, c := Page(s, skip, n), Page(s, skip + n, m), Page(s, skip, n + m);
    assert |a + b| == |c|;
    forall i | 0 <= i < |c|
      ensures (a + b)[i] == c[i]
    {
      if i < |a| {
        assert (a + b)[i] == a[i];
      } else {
        assert (a + b)[i] == b[i - |a|];
      }
    }
  }

  /** A page from the start with room for every row is the whole sequence. */
  lemma PageWhole<T>(s: seq<T>, limit: nat)
    requires limit >= |s|
    ensures Page(s, 0, limit) == s
  {
  }
}
