/** The order both list queries return rows in:
    `ORDER BY created_at DESC, id DESC`. Ids are text and are compared by
    code point (the C collation). */
module Ordering {
  import opened Common

  /** The columns a row is ordered by. */
  datatype SortKey = SortKey(createdAt: int, id: string)

  /** Code-point lexicographic order on text: `a` sorts at or before `b`. */
  predicate TextLe(a: string, b: string)
    decreases |a|
  {
    if a == [] then true
    else if b == [] then false
    else if a[0] != b[0] then a[0] < b[0]
    else TextLe(a[1..], b[1..])
  }

  lemma {:induction false} TextLeTotal(a: string, b: string)
    ensures TextLe(a, b) || TextLe(b, a)
    decreases |a|
  {
    if a != [] && b != [] && a[0] == b[0] {
      TextLeTotal(a[1..], b[1..]);
    }
  }

  lemma {:induction false} TextLeTransitive(a: string, b: string, c: string)
    requires TextLe(a, b) && TextLe(b, c)
    ensures TextLe(a, c)
    decreases |a|
  {
    if a != [] && b != [] && c != [] && a[0] == b[0] == c[0] {
      TextLeTransitive(a[1..], b[1..], c[1..]);
    }
  }

  /** A row with key `k1` may be returned before a row with key `k2`. */
  predicate ComesBefore(k1: SortKey, k2: SortKey) {
    k1.createdAt > k2.createdAt || (k1.createdAt == k2.createdAt && TextLe(k2.id, k1.id))
  }

  lemma ComesBeforeTotal(k1: SortKey, k2: SortKey)
    ensures ComesBefore(k1, k2) || ComesBefore(k2, k1)
  {
    TextLeTotal(k1.id, k2.id);
  }

  lemma ComesBeforeTransitive(k1: SortKey, k2: SortKey, k3: SortKey)
    requires ComesBefore(k1, k2) && ComesBefore(k2, k3)
    ensures ComesBefore(k1, k3)
  {
    if k1.createdAt == k2.createdAt == k3.createdAt {
      TextLeTransitive(k3.id, k2.id, k1.id);
    }
  }

  /** `xs` is in `created_at DESC, id DESC` order. */
  predicate NewestFirst<T>(xs: seq<T>, key: T -> SortKey) {
    forall i, j :: 0 <= i < j < |xs| ==> ComesBefore(key(xs[i]), key(xs[j]))
  }

  /** No two rows of `xs` share an id (the primary key). */
  predicate DistinctIds<T>(xs: seq<T>, key: T -> SortKey) {
    forall i, j :: 0 <= i < j < |xs| ==> key(xs[i]).id != key(xs[j]).id
  }

  /** Puts `x` into the ordered sequence `s`. */
  function Insert<T>(x: T, s: seq<T>, key: T -> SortKey): seq<T>
  {
    if s == [] then [x]
    else if ComesBefore(key(x), key(s[0])) then [x] + s
    else [s[0]] + Insert(x, s[1..], key)
  }

  /** Putting before an ordered sequence a row that may come before each of
      its rows keeps it ordered. */
  lemma PrependKeepsOrder<T>(h: T, rest: seq<T>, key: T -> SortKey)
    requires NewestFirst(rest, key)
    requires forall y :: y in rest ==> ComesBefore(key(h), key(y))
    ensures NewestFirst([h] + rest, key)
  {
  }

  /** Putting before a sequence with distinct ids a row whose id none of
      them has keeps the ids distinct. */
  lemma PrependKeepsDistinct<T>(h: T, rest: seq<T>, key: T -> SortKey)
    requires DistinctIds(rest, key)
    requires forall y :: y in rest ==> key(y).id != key(h).id
    ensures DistinctIds([h] + rest, key)
  {
  }

  lemma {:induction false} InsertPermutes<T>(x: T, s: seq<T>, key: T -> SortKey)
    ensures multiset(Insert(x, s, key)) == multiset(s) + multiset{x}
  {
    if s != [] && !ComesBefore(key(x), key(s[0])) {
      InsertPermutes(x, s[1..], key);
      assert s == [s[0]] + s[1..];
    }
  }

  lemma {:induction false} InsertKeepsOrder<T>(x: T, s: seq<T>, key: T -> SortKey)
    requires NewestFirst(s, key)
    ensures NewestFirst(Insert(x, s, key), key)
  {
    if s == [] {
    } else if ComesBefore(key(x), key(s[0])) {
      forall y | y in s
        ensures ComesBefore(key(x), key(y))
      {
        var j :| 0 <= j < |s| && s[j] == y;
        if j > 0 {
          ComesBeforeTransitive(key(x), key(s[0]), key(s[j]));
        }
      }
      PrependKeepsOrder(x, s, key);
    } else {
      InsertKeepsOrder(x, s[1..], key);
      ComesBeforeTotal(key(x), key(s[0]));
      var rest := Insert(x, s[1..], key);
      forall y | y in rest
        ensures ComesBefore(key(s[0]), key(y))
      {
        InsertMembers(x, s[1..], key, y);
        if y != x {
          var k :| 0 <= k < |s[1..]| && s[1..][k] == y;
          assert s[k + 1] == y;
        }
      }
      PrependKeepsOrder(s[0], rest, key);
    }
  }

  lemma {:induction false} InsertKeepsDistinct<T>(x: T, s: seq<T>, key: T -> SortKey)
    requires DistinctIds(s, key)
    requires forall y :: y in s ==> key(y).id != key(x).id
    ensures DistinctIds(Insert(x, s, key), key)
  {
    if s != [] && !ComesBefore(key(x), key(s[0])) {
      InsertKeepsDistinct(x, s[1..], key);
      var rest := Insert(x, s[1..], key);
      forall y | y in rest
        ensures key(y).id != key(s[0]).id
      {
        InsertMembers(x, s[1..], key, y);
        if y != x {
          var k :| 0 <= k < |s[1..]| && s[1..][k] == y;
          assert s[k + 1] == y;
        }
      }
      PrependKeepsDistinct(s[0], rest, key);
    }
  }

  lemma {:induction false} InsertMembers<T>(x: T, s: seq<T>, key: T -> SortKey, y: T)
    ensures y in Insert(x, s, key) <==> y == x || y in s
  {
    if s != [] && !ComesBefore(key(x), key(s[0])) {
      InsertMembers(x, s[1..], key, y);
      assert s == [s[0]] + s[1..];
    }
  }

  /** The rows of `xs` as `ORDER BY created_at DESC, id DESC` returns them:
      the same rows, each as often as in `xs`, newest first. */
  function SortNewestFirst<T>(xs: seq<T>, key: T -> SortKey): (r: seq<T>)
    ensures multiset(r) == multiset(xs)
    ensures NewestFirst(r, key)
  {
    if xs == [] then []
    else
      var rest := SortNewestFirst(xs[1..], key);
      InsertHead(xs, rest, key);
      Insert(xs[0], rest, key)
  }

  /** Inserting the first row into the ordered rest gives the whole, ordered. */
  lemma InsertHead<T>(xs: seq<T>, rest: seq<T>, key: T -> SortKey)
    requires xs != [] && multiset(rest) == multiset(xs[1..]) && NewestFirst(rest, key)
    ensures multiset(Insert(xs[0], rest, key)) == multiset(xs)
    ensures NewestFirst(Insert(xs[0], rest, key), key)
  {
    InsertPermutes(xs[0], rest, key);
    InsertKeepsOrder(xs[0], rest, key);
    assert xs == [xs[0]] + xs[1..];
  }

  /** Ordering returns exactly the rows it was given. */
  lemma SortMembers<T>(xs: seq<T>, key: T -> SortKey)
    ensures forall x :: x in SortNewestFirst(xs, key) <==> x in xs
    ensures |SortNewestFirst(xs, key)| == |xs|
  {
    var r := SortNewestFirst(xs, key);
    assert |r| == |multiset(r)|;
    forall x
      ensures x in r <==> x in xs
    {
      assert x in r <==> x in multiset(r);
      assert x in xs <==> x in multiset(xs);
    }
  }

  /** Ordering rows whose ids are distinct keeps their ids distinct. */
  lemma {:induction false} SortKeepsDistinct<T>(xs: seq<T>, key: T -> SortKey)
    requires DistinctIds(xs, key)
    ensures DistinctIds(SortNewestFirst(xs, key), key)
  {
    if xs != [] {
      SortKeepsDistinct(xs[1..], key);
      var rest := SortNewestFirst(xs[1..], key);
      forall y | y in rest
        ensures key(y).id != key(xs[0]).id
      {
        assert y in multiset(rest);
        var k :| 0 <= k < |xs[1..]| && xs[1..][k] == y;
        assert xs[k + 1] == y;
      }
      InsertKeepsDistinct(xs[0], rest, key);
    }
  }

  /** Selecting rows keeps their ids distinct. */
  lemma {:induction false} FilterKeepsDistinct<T(!new)>(xs: seq<T>, p: T -> bool, key: T -> SortKey)
    requires DistinctIds(xs, key)
    ensures DistinctIds(Filter(xs, p), key)
  {
    if xs != [] {
      FilterKeepsDistinct(xs[1..], p, key);
      var rest := Filter(xs[1..], p);
      if p(xs[0]) {
        forall y | y in rest
          ensures key(y).id != key(xs[0]).id
        {
          var k :| 0 <= k < |xs[1..]| && xs[1..][k] == y;
          assert xs[k + 1] == y;
        }
        PrependKeepsDistinct(xs[0], rest, key);
      }
    }
  }

  /** In a sequence with distinct ids, at most one row satisfies a clause
      that fixes the id. */
  lemma {:induction false} AtMostOneWithId<T(!new)>(xs: seq<T>, p: T -> bool, key: T -> SortKey, id: string)
    requires DistinctIds(xs, key)
    requires forall x :: p(x) ==> key(x).id == id
    ensures |Filter(xs, p)| <= 1
  {
    if xs != [] {
      var rest := xs[1..];
      assert DistinctIds(rest, key) by {
        forall i, j | 0 <= i < j < |rest| ensures key(rest[i]).id != key(rest[j]).id {
          assert rest[i] == xs[i + 1] && rest[j] == xs[j + 1];
        }
      }
      AtMostOneWithId(rest, p, key, id);
      if p(xs[0]) {
        forall y | y in rest
          ensures !p(y)
        {
          var k :| 0 <= k < |rest| && rest[k] == y;
          assert xs[k + 1] == y;
        }
        FilterNone(rest, p);
      }
    }
  }

  /** In a sequence with distinct ids, the first row satisfying a clause that
      fixes the id is the one row that has it. */
  lemma {:induction false} FirstWithId<T(!new)>(xs: seq<T>, p: T -> bool, key: T -> SortKey, x: T)
    requires DistinctIds(xs, key) && x in xs && p(x)
    requires forall y :: p(y) ==> key(y).id == key(x).id
    ensures First(xs, p) == Some(x)
  {
  }
}
