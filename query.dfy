/** What the handlers' SELECT statements do to a table once the SQL text is
    gone: pick the first matching row (`fetch_assoc` on a result), keep the
    rows a WHERE clause admits, and order rows by a key, largest first
    (`ORDER BY ... DESC`). */
module Query {
  import opened Php

  /** The position of the first row satisfying p: the row a single
      `fetch_assoc` returns. */
  function FindFirst<T>(s: seq<T>, p: T -> bool): (r: Option<nat>)
    ensures r.Some? ==> r.value < |s| && p(s[r.value]) && forall j :: 0 <= j < r.value ==> !p(s[j])
    ensures r.None? <==> forall j :: 0 <= j < |s| ==> !p(s[j])
  {
    if s == [] then None
    else if p(s[0]) then Some(0)
    else match FindFirst(s[1..], p)
      case None => None
      case Some(k) => Some(k + 1)
  }

  /** The rows a WHERE clause admits, in table order. */
  function Filter<T>(s: seq<T>, p: T -> bool): (r: seq<T>)
    ensures |r| <= |s|
    ensures forall i :: 0 <= i < |r| ==> r[i] in s && p(r[i])
    ensures forall i :: 0 <= i < |s| && p(s[i]) ==> s[i] in r
  {
    if s == [] then []
    else if p(s[0]) then [s[0]] + Filter(s[1..], p)
    else Filter(s[1..], p)
  }

  /** A filter that matches no row keeps none. */
  lemma {:induction false} FilterNone<T>(s: seq<T>, p: T -> bool)
    requires forall i :: 0 <= i < |s| ==> !p(s[i])
    ensures Filter(s, p) == []
  {
    if s != [] {
      FilterNone(s[1..], p);
    }
  }

  /** A filter keeps every matching row exactly as often as the table has it. */
  lemma {:induction false} FilterCount<T>(s: seq<T>, p: T -> bool, x: T)
    ensures multiset(Filter(s, p))[x] == if p(x) then multiset(s)[x] else 0
  {
    if s != [] {
      FilterCount(s[1..], p, x);
      assert s == [s[0]] + s[1..];
    }
  }

  predicate SortedDesc<T>(s: seq<T>, key: T -> int) {
    forall i, j :: 0 <= i < j < |s| ==> key(s[i]) >= key(s[j])
  }

  /** x placed in front of the first row of s whose key is not larger. */
  function InsertDesc<T>(x: T, s: seq<T>, key: T -> int): (r: seq<T>)
    requires SortedDesc(s, key)
    ensures SortedDesc(r, key)
    ensures multiset(r) == multiset(s) + multiset{x}
  {
    if s == [] || key(s[0]) <= key(x) then [x] + s
    else
      var rest := InsertDesc(x, s[1..], key);
      HeadDominates(s[0], s[1..], x, rest, key);
      assert s == [s[0]] + s[1..];
      [s[0]] + rest
  }

  lemma HeadDominates<T>(h: T, t: seq<T>, x: T, rest: seq<T>, key: T -> int)
    requires SortedDesc([h] + t, key) && key(x) < key(h)
    requires SortedDesc(rest, key) && multiset(rest) == multiset(t) + multiset{x}
    ensures SortedDesc([h] + rest, key)
  {
    forall j | 0 <= j < |rest| ensures key(rest[j]) <= key(h) {
      assert rest[j] in multiset(rest);
      if rest[j] != x {
        assert rest[j] in multiset(t);
        assert rest[j] in t;
        var i :| 0 <= i < |t| && t[i] == rest[j];
        assert ([h] + t)[i + 1] == t[i] && ([h] + t)[0] == h;
        assert key(([h] + t)[0]) >= key(([h] + t)[i + 1]);
      }
    }
    forall i, j | 0 <= i < j < |[h] + rest| ensures key(([h] + rest)[i]) >= key(([h] + rest)[j]) {
      if i > 0 {
        assert ([h] + rest)[i] == rest[i - 1];
      }
      assert ([h] + rest)[j] == rest[j - 1];
    }
  }

  /** The rows of s ordered by key, largest first: `ORDER BY key DESC`. The
      result is sorted and holds exactly the rows of s; the order among rows
      with equal keys is this model's choice (SQL leaves it open). */
  function SortDesc<T>(s: seq<T>, key: T -> int): (r: seq<T>)
    ensures SortedDesc(r, key)
    ensures multiset(r) == multiset(s)
  {
    if s == [] then []
    else
      assert s == [s[0]] + s[1..];
      InsertDesc(s[0], SortDesc(s[1..], key), key)
  }

  /** Rows of equal multiset have the same elements. */
  lemma SameElements<T>(a: seq<T>, b: seq<T>)
    requires multiset(a) == multiset(b)
    ensures forall x :: x in a <==> x in b
  {
    forall x ensures x in a <==> x in b {
      assert x in a <==> x in multiset(a);
      assert x in b <==> x in multiset(b);
    }
  }

  /** Where the m-th element of a sits in a sequence with the same elements. */
  lemma IndexOfSame<T>(a: seq<T>, b: seq<T>, m: int) returns (k: int)
    requires multiset(a) == multiset(b) && 0 <= m < |a|
    ensures 0 <= k < |b| && b[k] == a[m]
  {
    SameElements(a, b);
    assert a[m] in a;
    k :| 0 <= k < |b| && b[k] == a[m];
  }

  /** `while ($row = $result->fetch_assoc()) { $rows[] = $row; }`: the rows of
      a result set, fetched one at a time into a fresh list. */
  method FetchAll<T>(result: seq<T>) returns (rows: seq<T>)
    ensures rows == result
  {
    rows := [];
    var i := 0;
    while i < |result|
      invariant 0 <= i <= |result|
      invariant rows == result[..i]
    {
      rows := rows + [result[i]];
      i := i + 1;
    }
  }
}
