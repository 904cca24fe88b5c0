/**
 * Generic operations on tables held as sequences of rows: single-row lookups,
 * "latest row" queries and ORDER BY, with SQLite's BINARY text collation.
 */
module Sequences {
  import opened Wrappers

  /** Some row satisfying `p`, as `cursor.fetchone()` returns it; None when no row does. */
  function FirstWhere<T>(s: seq<T>, p: T -> bool): (r: Option<T>)
    ensures r.None? <==> forall x :: x in s ==> !p(x)
    ensures r.Some? ==> r.value in s && p(r.value)
  {
    if s == [] then None
    else if p(s[0]) then Some(s[0])
    else
      var r := FirstWhere(s[1..], p);
      assert forall x :: x in s ==> x == s[0] || x in s[1..];
      r
  }

  /** `WHERE p`: the rows satisfying `p`, in table order. */
  function Where<T>(s: seq<T>, p: T -> bool): (r: seq<T>)
    ensures forall x :: x in r ==> x in s && p(x)
    ensures forall x :: x in s && p(x) ==> x in r
    ensures |r| <= |s|
  {
    if s == [] then []
    else
      assert forall x :: x in s ==> x == s[0] || x in s[1..];
      (if p(s[0]) then [s[0]] else []) + Where(s[1..], p)
  }

  /** Inserting a row extends the rows a filter selects by that row, if it matches, and keeps the rest. */
  lemma {:induction false} WhereAppend<T>(s: seq<T>, x: T, p: T -> bool)
    ensures Where(s + [x], p) == Where(s, p) + (if p(x) then [x] else [])
  {
    if s != [] {
      assert (s + [x])[1..] == s[1..] + [x];
      WhereAppend(s[1..], x, p);
    }
  }

  /** A filter that no row satisfies selects nothing. */
  lemma {:induction false} WhereNone<T>(s: seq<T>, p: T -> bool)
    requires forall x :: x in s ==> !p(x)
    ensures Where(s, p) == []
  {
    if s != [] {
      assert forall x :: x in s[1..] ==> x in s;
      WhereNone(s[1..], p);
    }
  }

  /** Filtering twice is filtering once by the second condition, when it implies the first. */
  lemma {:induction false} WhereOfWhere<T>(s: seq<T>, p: T -> bool, q: T -> bool)
    requires forall x :: x in s && q(x) ==> p(x)
    ensures Where(Where(s, p), q) == Where(s, q)
  {
    if s != [] {
      assert forall x :: x in s[1..] ==> x in s;
      WhereOfWhere(s[1..], p, q);
      if !p(s[0]) {
        assert Where(s, p) == Where(s[1..], p);
      } else {
        var w := Where(s, p);
        assert w[0] == s[0] && w[1..] == Where(s[1..], p);
      }
    }
  }

  /**
   * `WHERE p ORDER BY time DESC LIMIT 1`: some row satisfying `p` whose key is
   * maximal among such rows. Which row wins a tie is left open, as in SQLite.
   */
  function LatestWhere<T>(s: seq<T>, p: T -> bool, time: T -> int): (r: Option<T>)
    ensures r.None? <==> forall x :: x in s ==> !p(x)
    ensures r.Some? ==> r.value in s && p(r.value)
    ensures r.Some? ==> forall x :: x in s && p(x) ==> time(x) <= time(r.value)
  {
    if s == [] then None
    else
      var rest := LatestWhere(s[1..], p, time);
      assert forall x :: x in s ==> x == s[0] || x in s[1..];
      if !p(s[0]) then rest
      else if rest.Some? && time(s[0]) <= time(rest.value) then rest
      else Some(s[0])
  }

  /**
   * SQLite's BINARY collation on TEXT: compare character by character, a
   * proper prefix sorts first. (Code-point order is UTF-8 byte order.)
   */
  predicate LexLe(a: string, b: string)
  {
    a == [] || (b != [] && (a[0] < b[0] || (a[0] == b[0] && LexLe(a[1..], b[1..]))))
  }

  lemma {:induction false} LexLeTotal(a: string, b: string)
    ensures LexLe(a, b) || LexLe(b, a)
  {
    if a != [] && b != [] && a[0] == b[0] {
      LexLeTotal(a[1..], b[1..]);
    }
  }

  lemma {:induction false} LexLeAntisymmetric(a: string, b: string)
    requires LexLe(a, b) && LexLe(b, a)
    ensures a == b
  {
    if a != [] && b != [] {
      LexLeAntisymmetric(a[1..], b[1..]);
      assert a == [a[0]] + a[1..] && b == [b[0]] + b[1..];
    }
  }

  lemma {:induction false} LexLeTransitive(a: string, b: string, c: string)
    requires LexLe(a, b) && LexLe(b, c)
    ensures LexLe(a, c)
  {
    if a != [] && a[0] == b[0] && b[0] == c[0] {
      LexLeTransitive(a[1..], b[1..], c[1..]);
    }
  }

  /** `le` orders every pair and is transitive: a valid ORDER BY comparison. */
  ghost predicate TotalPreorder<T(!new)>(le: (T, T) -> bool)
  {
    && (forall a, b :: le(a, b) || le(b, a))
    && (forall a, b, c :: le(a, b) && le(b, c) ==> le(a, c))
  }

  predicate SortedBy<T>(s: seq<T>, le: (T, T) -> bool)
  {
    forall i, j :: 0 <= i < j < |s| ==> le(s[i], s[j])
  }

  function Insert<T(!new)>(x: T, s: seq<T>, le: (T, T) -> bool): (r: seq<T>)
    requires TotalPreorder(le) && SortedBy(s, le)
    ensures multiset(r) == multiset(s) + multiset{x}
    ensures SortedBy(r, le)
  {
    if s == [] || le(x, s[0]) then [x] + s
    else
      var rest := Insert(x, s[1..], le);
      assert s == [s[0]] + s[1..];
      HeadBelowRest(x, s, rest, le);
      [s[0]] + rest
  }

  /** The step of Insert that puts `s[0]` in front of the rest. */
  lemma HeadBelowRest<T(!new)>(x: T, s: seq<T>, rest: seq<T>, le: (T, T) -> bool)
    requires TotalPreorder(le) && SortedBy(s, le) && s != [] && !le(x, s[0])
    requires multiset(rest) == multiset(s[1..]) + multiset{x} && SortedBy(rest, le)
    ensures SortedBy([s[0]] + rest, le)
  {
    assert le(s[0], x);
    forall j | 0 <= j < |rest|
      ensures le(s[0], rest[j])
    {
      assert rest[j] in multiset(rest);
      if rest[j] != x {
        assert rest[j] in multiset(s[1..]);
        var k :| 0 <= k < |s[1..]| && s[1..][k] == rest[j];
        assert s[k + 1] == rest[j];
      }
    }
    var t := [s[0]] + rest;
    forall i, j | 0 <= i < j < |t|
      ensures le(t[i], t[j])
    {
      if i == 0 {
        assert t[j] == rest[j - 1];
      } else {
        assert t[i] == rest[i - 1] && t[j] == rest[j - 1];
      }
    }
  }

  /** ORDER BY `le`: a permutation of the rows in which `le` holds left to right. */
  function SortBy<T(!new)>(s: seq<T>, le: (T, T) -> bool): (r: seq<T>)
    requires TotalPreorder(le)
    ensures multiset(r) == multiset(s)
    ensures SortedBy(r, le)
  {
    if s == [] then []
    else
      assert s == [s[0]] + s[1..];
      Insert(s[0], SortBy(s[1..], le), le)
  }

  /** Two orderings of the same rows agree when `le` ties no two distinct rows. */
  lemma {:induction false} SortedUnique<T(!new)>(a: seq<T>, b: seq<T>, le: (T, T) -> bool)
    requires multiset(a) == multiset(b)
    requires SortedBy(a, le) && SortedBy(b, le)
    requires forall x, y :: x in a && y in a && le(x, y) && le(y, x) ==> x == y
    ensures a == b
  {
    if a == [] {
      assert |b| == |multiset(b)| == 0;
    } else {
      SortedHeadsAgree(a, b, le);
      SameTails(a, b);
      forall x, y | x in a[1..] && y in a[1..] && le(x, y) && le(y, x)
        ensures x == y
      {
        assert x in a && y in a;
      }
      SortedUnique(a[1..], b[1..], le);
      assert a == [a[0]] + a[1..] && b == [b[0]] + b[1..];
    }
  }

  lemma SortedHeadsAgree<T(!new)>(a: seq<T>, b: seq<T>, le: (T, T) -> bool)
    requires a != [] && multiset(a) == multiset(b)
    requires SortedBy(a, le) && SortedBy(b, le)
    requires forall x, y :: x in a && y in a && le(x, y) && le(y, x) ==> x == y
    ensures b != [] && a[0] == b[0]
  {
    assert a[0] in multiset(b);
    assert b[0] in multiset(a);
    var k :| 0 <= k < |a| && a[k] == b[0];
    var j :| 0 <= j < |b| && b[j] == a[0];
    if k != 0 && j != 0 {
      assert le(a[0], a[k]) && le(b[0], b[j]);
      assert a[0] in a && a[k] in a;
    }
  }

  lemma SameTails<T>(a: seq<T>, b: seq<T>)
    requires a != [] && b != [] && a[0] == b[0] && multiset(a) == multiset(b)
    ensures multiset(a[1..]) == multiset(b[1..])
  {
    assert a == [a[0]] + a[1..] && b == [b[0]] + b[1..];
    assert multiset(a) == multiset{a[0]} + multiset(a[1..]);
    assert multiset(b) == multiset{b[0]} + multiset(b[1..]);
    assert multiset(a[1..]) == multiset(a) - multiset{a[0]};
    assert multiset(b[1..]) == multiset(b) - multiset{b[0]};
  }
}
