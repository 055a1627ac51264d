/** Page selection shared by both list procedures: the bounds on `pageSize`,
    `LIMIT pageSize OFFSET (page - 1) * pageSize`, and
    `totalPages = Math.ceil(total / pageSize)`. */
module Pagination {
  import opened Common
  import opened Ordering

  // The values of src/constants, which is not part of this model; every
  // property below holds for any 1 <= MIN_PAGE_SIZE <= DEFAULT_PAGE_SIZE <= MAX_PAGE_SIZE.
  const DEFAULT_PAGE: int := 1
  const DEFAULT_PAGE_SIZE: int := 10
  const MIN_PAGE_SIZE: int := 1
  const MAX_PAGE_SIZE: int := 100

  /** PostgreSQL's error for `OFFSET` below zero, which a `page` below 1 produces. */
  const NEGATIVE_OFFSET := "OFFSET must not be negative"

  /** What `getMany` returns: `{ items, total, totalPages }`. */
  datatype Paged<T> = Paged(items: seq<T>, total: nat, totalPages: nat)

  predicate PageSizeInRange(pageSize: int) {
    MIN_PAGE_SIZE <= pageSize <= MAX_PAGE_SIZE
  }

  /** The issues `z.number().min(MIN_PAGE_SIZE).max(MAX_PAGE_SIZE)` reports for `pageSize`. */
  function PageSizeIssues(pageSize: int): (r: seq<Issue>)
    ensures r == [] <==> PageSizeInRange(pageSize)
    ensures r != [] ==> |r| == 1 && r[0].path == "pageSize" && r[0].message == None &&
                        (r[0].code == TooSmall <==> pageSize < MIN_PAGE_SIZE) &&
                        (r[0].code == TooBig <==> pageSize > MAX_PAGE_SIZE)
  {
    if pageSize < MIN_PAGE_SIZE then [Issue("pageSize", TooSmall, None)]
    else if pageSize > MAX_PAGE_SIZE then [Issue("pageSize", TooBig, None)]
    else []
  }

  function Min(a: int, b: int): int {
    if a <= b then a else b
  }

  /** `Math.ceil(total / pageSize)`: the fewest pages of `size` rows that hold
      `total` rows. */
  function CeilDiv(total: nat, size: nat): (r: nat)
    requires size > 0
    ensures total <= r * size < total + size
    ensures total == 0 <==> r == 0
  {
    var r := (total + size - 1) / size;
    assert r * size + (total + size - 1) % size == total + size - 1;
    r
  }

  /** `(page - 1) * pageSize`, the OFFSET of page `page`: never negative from
      page 1 on, negative for every page below 1. */
  function Offset(page: int, pageSize: nat): (o: int)
    ensures page >= 1 ==> o >= 0
    ensures page < 1 && pageSize > 0 ==> o < 0
  {
    if page >= 1 then
      MulLe(0, page - 1, pageSize);
      (page - 1) * pageSize
    else
      MulLe(page - 1, -1, pageSize);
      (page - 1) * pageSize
  }

  /** `LIMIT limit OFFSET offset`: the rows of `xs` from position `offset` on,
      at most `limit` of them. */
  function Window<T>(xs: seq<T>, offset: nat, limit: nat): (r: seq<T>)
    ensures |r| == if offset >= |xs| then 0 else Min(limit, |xs| - offset)
    ensures forall i :: 0 <= i < |r| ==> r[i] == xs[offset + i]
  {
    if offset >= |xs| then [] else xs[offset..Min(offset + limit, |xs|)]
  }

  /** Pages 1 to n of `xs`, one after the other. */
  function Pages<T>(xs: seq<T>, size: nat, n: nat): seq<T>
  {
    if n == 0 then [] else Pages(xs, size, n - 1) + Window(xs, Offset(n, size), size)
  }

  lemma {:induction false} PagesArePrefix<T>(xs: seq<T>, size: nat, n: nat)
    ensures Pages(xs, size, n) == xs[..Min(n * size, |xs|)]
  {
    if n > 0 {
      PagesArePrefix(xs, size, n - 1);
      var lo := (n - 1) * size;
      assert n * size == lo + size;
      if lo < |xs| {
        assert xs[..lo] + xs[lo..Min(lo + size, |xs|)] == xs[..Min(lo + size, |xs|)];
      }
    }
  }

  /** Pages 1 to totalPages together are the whole ordered list: no row is
      missed and none is repeated. */
  lemma PagesCoverAll<T>(xs: seq<T>, size: nat)
    requires size > 0
    ensures Pages(xs, size, CeilDiv(|xs|, size)) == xs
  {
    PagesArePrefix(xs, size, CeilDiv(|xs|, size));
    assert xs[..|xs|] == xs;
  }

  lemma MulLe(a: int, b: int, c: nat)
    requires a <= b
    ensures a * c <= b * c
  {
  }

  /** Page `p` has rows exactly when 1 <= p <= totalPages; a later page is
      accepted and comes back empty. */
  lemma PageNonEmptyIff<T>(xs: seq<T>, size: nat, p: int)
    requires size > 0 && p >= 1
    ensures Window(xs, Offset(p, size), size) != [] <==> p <= CeilDiv(|xs|, size)
  {
    var r := CeilDiv(|xs|, size);
    if p <= r {
      MulLe(p - 1, r - 1, size);
      assert (r - 1) * size == r * size - size;
    } else {
      MulLe(r, p - 1, size);
    }
  }

  /** Windows that do not overlap share no id when the list's ids are distinct. */
  lemma WindowsDisjoint<T>(xs: seq<T>, key: T -> SortKey, o1: nat, o2: nat, size: nat)
    requires DistinctIds(xs, key)
    requires o1 + size <= o2
    ensures forall x, y :: x in Window(xs, o1, size) && y in Window(xs, o2, size) ==> key(x).id != key(y).id
  {
  }

  /** Two different pages of a list with distinct ids share no id. */
  lemma PagesDisjoint<T>(xs: seq<T>, key: T -> SortKey, size: nat, p: int, q: int)
    requires DistinctIds(xs, key)
    requires size > 0 && 1 <= p < q
    ensures forall x, y :: x in Window(xs, Offset(p, size), size) && y in Window(xs, Offset(q, size), size)
                           ==> key(x).id != key(y).id
  {
    MulLe(p, q - 1, size);
    assert p * size == (p - 1) * size + size;
    WindowsDisjoint(xs, key, Offset(p, size), Offset(q, size), size);
  }
}
