/** Values shared by the agents and meetings routers: results and the errors
    the procedures raise, the text match behind the `search` filter, and the
    row-set operations (WHERE, COUNT, first row of a result) that their SQL
    statements are built from. */
module Common {

  datatype Option<+T> = None | Some(value: T) {
    function GetOr(default: T): T {
      match this
      case Some(v) => v
      case None => default
    }
  }

  /** The check of a zod schema that an input failed. */
  datatype IssueCode = TooSmall | TooBig | InvalidEnumValue

  /** One zod issue: the input field, the failed check and the schema's own
      message when it sets one (None stands for zod's built-in text). */
  datatype Issue = Issue(path: string, code: IssueCode, message: Option<string>)

  /** What a procedure can fail with. */
  datatype Error =
    | BadRequest(issues: seq<Issue>)   // the input schema rejected the input
    | NotFound(message: string)        // TRPCError with code NOT_FOUND
    | StorageError(message: string)    // the database rejected the statement

  datatype Result<+T> = Ok(value: T) | Err(error: Error)

  /** A nullish string filter that JavaScript treats as true: present and not empty. */
  predicate Truthy(s: Option<string>) {
    s.Some? && s.value != ""
  }

  // ---------------------------------------------------------------------
  // Case-insensitive substring match (`name ILIKE '%search%'`)
  // ---------------------------------------------------------------------

  function LowerChar(c: char): char {
    if 'A' <= c <= 'Z' then (c as int - 'A' as int + 'a' as int) as char else c
  }

  function Lower(s: string): (r: string)
    ensures |r| == |s|
  {
    seq(|s|, i requires 0 <= i < |s| => LowerChar(s[i]))
  }

  /** `needle` occurs in `hay` at some position. */
  predicate IsSubstring(needle: string, hay: string)
    decreases |hay|
  {
    needle <= hay || (hay != [] && IsSubstring(needle, hay[1..]))
  }

  /** `hay ILIKE '%needle%'`, with `%` and `_` inside `needle` taken literally. */
  predicate ContainsIgnoreCase(hay: string, needle: string) {
    IsSubstring(Lower(needle), Lower(hay))
  }

  /** `needle` is the slice of `hay` that starts at position `i`. */
  predicate OccursAt(needle: string, hay: string, i: int) {
    0 <= i && i + |needle| <= |hay| && hay[i..i + |needle|] == needle
  }

  /** IsSubstring agrees with the positional definition: `needle` occurs in
      `hay` at some position. */
  lemma {:induction false} IsSubstringAt(needle: string, hay: string)
    ensures IsSubstring(needle, hay) <==> exists i :: OccursAt(needle, hay, i)
    decreases |hay|
  {
    if needle <= hay {
      assert OccursAt(needle, hay, 0);
    }
    if hay != [] {
      IsSubstringAt(needle, hay[1..]);
      if IsSubstring(needle, hay[1..]) {
        var i :| OccursAt(needle, hay[1..], i);
        assert hay[1..][i..i + |needle|] == hay[i + 1..i + 1 + |needle|];
        assert OccursAt(needle, hay, i + 1);
      }
      if exists i :: OccursAt(needle, hay, i) {
        var i :| OccursAt(needle, hay, i);
        if i == 0 {
          assert needle <= hay;
        } else {
          assert hay[1..][i - 1..i - 1 + |needle|] == hay[i..i + |needle|];
          assert OccursAt(needle, hay[1..], i - 1);
        }
      }
    } else if exists i :: OccursAt(needle, hay, i) {
      var i :| OccursAt(needle, hay, i);
      assert needle == [];
    }
  }

  // ---------------------------------------------------------------------
  // Row-set operations
  // ---------------------------------------------------------------------

  /** The rows of `xs` that satisfy the WHERE clause `p`, in table order. */
  function Filter<T(!new)>(xs: seq<T>, p: T -> bool): (r: seq<T>)
    ensures |r| <= |xs|
    ensures forall x :: x in r <==> x in xs && p(x)
  {
    if xs == [] then []
    else (if p(xs[0]) then [xs[0]] else []) + Filter(xs[1..], p)
  }

  /** `SELECT count(*) ... WHERE p`. */
  function CountWhere<T(!new)>(xs: seq<T>, p: T -> bool): (n: nat)
    ensures n <= |xs|
  {
    if xs == [] then 0
    else (if p(xs[0]) then 1 else 0) + CountWhere(xs[1..], p)
  }

  /** The first row of `xs` satisfying `p` (`const [row] = await ... where(p)`). */
  function First<T(!new)>(xs: seq<T>, p: T -> bool): (r: Option<T>)
    ensures r.None? <==> forall x :: x in xs ==> !p(x)
    ensures r.Some? ==> r.value in xs && p(r.value)
  {
    if xs == [] then None
    else if p(xs[0]) then Some(xs[0])
    else First(xs[1..], p)
  }

  /** A WHERE clause no row satisfies selects nothing. */
  lemma {:induction false} FilterNone<T(!new)>(xs: seq<T>, p: T -> bool)
    requires forall x :: x in xs ==> !p(x)
    ensures Filter(xs, p) == []
  {
    if xs != [] {
      FilterNone(xs[1..], p);
    }
  }

  /** A WHERE clause every row satisfies selects all of them. */
  lemma {:induction false} FilterAll<T(!new)>(xs: seq<T>, p: T -> bool)
    requires forall x :: x in xs ==> p(x)
    ensures Filter(xs, p) == xs
  {
    if xs != [] {
      FilterAll(xs[1..], p);
      assert xs == [xs[0]] + xs[1..];
    }
  }

  /** The count query and the row query over the same WHERE clause agree. */
  lemma {:induction false} CountIsFilterLength<T(!new)>(xs: seq<T>, p: T -> bool)
    ensures CountWhere(xs, p) == |Filter(xs, p)|
  {
    if xs != [] {
      CountIsFilterLength(xs[1..], p);
    }
  }

  lemma {:induction false} FilterConcat<T(!new)>(a: seq<T>, b: seq<T>, p: T -> bool)
    ensures Filter(a + b, p) == Filter(a, p) + Filter(b, p)
  {
    if a == [] {
      assert a + b == b;
    } else {
      assert (a + b)[1..] == a[1..] + b;
      FilterConcat(a[1..], b, p);
    }
  }

  /** A WHERE clause that implies `p` makes an earlier filter on `p` redundant. */
  lemma {:induction false} FilterAbsorb<T(!new)>(xs: seq<T>, p: T -> bool, q: T -> bool)
    requires forall x :: q(x) ==> p(x)
    ensures Filter(Filter(xs, p), q) == Filter(xs, q)
  {
    if xs != [] {
      FilterAbsorb(xs[1..], p, q);
      var f := Filter(xs, p);
      if p(xs[0]) {
        assert f == [xs[0]] + Filter(xs[1..], p);
        assert f[0] == xs[0] && f[1..] == Filter(xs[1..], p);
      } else {
        assert !q(xs[0]) && f == Filter(xs[1..], p);
      }
    }
  }

  /** Two WHERE clauses that hold of the same rows select the same rows. */
  lemma {:induction false} FilterSame<T(!new)>(xs: seq<T>, p: T -> bool, q: T -> bool)
    requires forall x :: p(x) == q(x)
    ensures Filter(xs, p) == Filter(xs, q)
  {
    if xs != [] {
      FilterSame(xs[1..], p, q);
    }
  }

  /** Deleting the rows matching `p` keeps exactly the others. */
  lemma {:induction false} FilterComplementLength<T(!new)>(xs: seq<T>, p: T -> bool, q: T -> bool)
    requires forall x :: q(x) == !p(x)
    ensures |Filter(xs, q)| + CountWhere(xs, p) == |xs|
  {
    if xs != [] {
      FilterComplementLength(xs[1..], p, q);
    }
  }

  /** A prior filter on a clause implied by `q` does not change the first `q` row. */
  lemma {:induction false} FirstAbsorb<T(!new)>(xs: seq<T>, p: T -> bool, q: T -> bool)
    requires forall x :: q(x) ==> p(x)
    ensures First(Filter(xs, p), q) == First(xs, q)
  {
    if xs != [] {
      FirstAbsorb(xs[1..], p, q);
      var f := Filter(xs, p);
      if p(xs[0]) {
        assert f == [xs[0]] + Filter(xs[1..], p);
        assert f[0] == xs[0] && f[1..] == Filter(xs[1..], p);
      } else {
        assert !q(xs[0]) && f == Filter(xs[1..], p);
      }
    }
  }
}
