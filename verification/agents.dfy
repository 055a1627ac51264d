/** The agents router: `getMany` and `getOne` as queries over the agents
    table, and `create`, `remove` and `update` as methods of the table.
    The caller is the authenticated user's id, passed explicitly. */
module Agents {
  import opened Common
  import opened Ordering
  import opened Pagination
  import opened AgentSchema

  /** A row of the agents table. */
  datatype Agent = Agent(id: string, userId: string, name: string, instructions: string,
                         createdAt: int, updatedAt: int)

  /** Both `getMany` and `getOne` select `meetingCount` as the SQL literal 5. */
  const MEETING_COUNT: int := 5

  /** A row as the two queries return it: the agent's columns and `meetingCount`. */
  datatype AgentItem = AgentItem(agent: Agent, meetingCount: int)

  /** The `update` payload: the row's id and its new name and instructions. */
  datatype AgentUpdate = AgentUpdate(id: string, name: string, instructions: string)

  /** The `getMany` input; None stands for a field left out. */
  datatype GetManyInput = GetManyInput(page: Option<int>, pageSize: Option<int>, search: Option<string>)

  const AGENT_NOT_FOUND := "Agent not found"

  function AgentKey(a: Agent): SortKey {
    SortKey(a.createdAt, a.id)
  }

  function ItemKey(it: AgentItem): SortKey {
    AgentKey(it.agent)
  }

  // ---------------------------------------------------------------------
  // getMany
  // ---------------------------------------------------------------------

  /** The WHERE clause of both the fetch and the count query: the caller owns
      the row and, when `search` is truthy, its name contains `search`
      ignoring case. */
  predicate Matches(a: Agent, caller: string, search: Option<string>) {
    a.userId == caller && (Truthy(search) ==> ContainsIgnoreCase(a.name, search.value))
  }

  function Where(caller: string, search: Option<string>): Agent -> bool {
    (a: Agent) => Matches(a, caller, search)
  }

  function OwnedBy(caller: string): Agent -> bool {
    (a: Agent) => a.userId == caller
  }

  /** The count query. */
  function CountMatching(rows: seq<Agent>, caller: string, search: Option<string>): nat {
    CountWhere(rows, Where(caller, search))
  }

  /** Every row the fetch query selects before LIMIT and OFFSET, in its order. */
  function Listing(rows: seq<Agent>, caller: string, search: Option<string>): (r: seq<AgentItem>)
    ensures forall it :: it in r ==> it.agent in rows && Matches(it.agent, caller, search) &&
                                     it.meetingCount == MEETING_COUNT
    ensures forall a :: a in rows && Matches(a, caller, search) ==> AgentItem(a, MEETING_COUNT) in r
    ensures NewestFirst(r, ItemKey)
    ensures |r| == CountMatching(rows, caller, search)
  {
    var ordered := SortNewestFirst(Filter(rows, Where(caller, search)), AgentKey);
    CountIsFilterLength(rows, Where(caller, search));
    SortMembers(Filter(rows, Where(caller, search)), AgentKey);
    var r := seq(|ordered|, i requires 0 <= i < |ordered| => AgentItem(ordered[i], MEETING_COUNT));
    ListingMembers(rows, caller, search, ordered, r);
    r
  }

  lemma ListingMembers(rows: seq<Agent>, caller: string, search: Option<string>,
                       ordered: seq<Agent>, r: seq<AgentItem>)
    requires ordered == SortNewestFirst(Filter(rows, Where(caller, search)), AgentKey)
    requires |r| == |ordered| && forall i :: 0 <= i < |r| ==> r[i] == AgentItem(ordered[i], MEETING_COUNT)
    ensures forall it :: it in r ==> it.agent in rows && Matches(it.agent, caller, search) &&
                                     it.meetingCount == MEETING_COUNT
    ensures forall a :: a in rows && Matches(a, caller, search) ==> AgentItem(a, MEETING_COUNT) in r
    ensures NewestFirst(r, ItemKey)
  {
    var selected := Filter(rows, Where(caller, search));
    SortMembers(selected, AgentKey);
    forall it | it in r
      ensures it.agent in rows && Matches(it.agent, caller, search) && it.meetingCount == MEETING_COUNT
    {
      var i :| 0 <= i < |r| && r[i] == it;
      assert ordered[i] in ordered;
    }
    forall a | a in rows && Matches(a, caller, search)
      ensures AgentItem(a, MEETING_COUNT) in r
    {
      assert a in ordered;
      var i :| 0 <= i < |ordered| && ordered[i] == a;
      assert r[i] == AgentItem(a, MEETING_COUNT);
    }
  }

  /** `getMany`: validates `pageSize`, then fetches one page of the caller's
      matching agents, newest first, and counts all of them. */
  function GetMany(rows: seq<Agent>, caller: string, input: GetManyInput): (r: Result<Paged<AgentItem>>)
    ensures var pageSize := input.pageSize.GetOr(DEFAULT_PAGE_SIZE);
            var page := input.page.GetOr(DEFAULT_PAGE);
            && (!PageSizeInRange(pageSize) ==> r == Err(BadRequest(PageSizeIssues(pageSize))))
            && (PageSizeInRange(pageSize) && page < 1 ==> r == Err(StorageError(NEGATIVE_OFFSET)))
            && (PageSizeInRange(pageSize) && page >= 1 ==>
                  && r.Ok?
                  && r.value.items == Window(Listing(rows, caller, input.search), Offset(page, pageSize), pageSize)
                  && r.value.total == CountMatching(rows, caller, input.search)
                  && r.value.totalPages == CeilDiv(r.value.total, pageSize))
    ensures r.Ok? ==> && |r.value.items| <= input.pageSize.GetOr(DEFAULT_PAGE_SIZE)
                      && NewestFirst(r.value.items, ItemKey)
                      && forall it :: it in r.value.items ==>
                           it.agent in rows && it.agent.userId == caller &&
                           (Truthy(input.search) ==> ContainsIgnoreCase(it.agent.name, input.search.value))
  {
    var pageSize := input.pageSize.GetOr(DEFAULT_PAGE_SIZE);
    var page := input.page.GetOr(DEFAULT_PAGE);
    if !PageSizeInRange(pageSize) then
      Err(BadRequest(PageSizeIssues(pageSize)))
    else if Offset(page, pageSize) < 0 then
      Err(StorageError(NEGATIVE_OFFSET))
    else
      var listing := Listing(rows, caller, input.search);
      var items := Window(listing, Offset(page, pageSize), pageSize);
      assert forall it :: it in items ==> it in listing;
      var total := CountMatching(rows, caller, input.search);
      Ok(Paged(items, total, CeilDiv(total, pageSize)))
  }

  /** Page n of an accepted input is the n-th window of the listing, and
      every page reports the same total and page count. */
  lemma NthPage(rows: seq<Agent>, caller: string, input: GetManyInput, n: int)
    requires PageSizeInRange(input.pageSize.GetOr(DEFAULT_PAGE_SIZE)) && n >= 1
    ensures var size := input.pageSize.GetOr(DEFAULT_PAGE_SIZE);
            var total := CountMatching(rows, caller, input.search);
            GetMany(rows, caller, input.(page := Some(n))) ==
              Ok(Paged(Window(Listing(rows, caller, input.search), Offset(n, size), size), total, CeilDiv(total, size)))
  {
  }

  /** Requesting pages 1 to totalPages of a successful `getMany` returns the
      windows that, one after the other, are every matching agent exactly
      once, newest first; there are `total` of them. */
  lemma AllPagesAreListing(rows: seq<Agent>, caller: string, input: GetManyInput)
    requires PageSizeInRange(input.pageSize.GetOr(DEFAULT_PAGE_SIZE)) && input.page.GetOr(DEFAULT_PAGE) >= 1
    ensures GetMany(rows, caller, input).Ok?
    ensures var r := GetMany(rows, caller, input).value;
            var size := input.pageSize.GetOr(DEFAULT_PAGE_SIZE);
            var listing := Listing(rows, caller, input.search);
            && (forall k :: 1 <= k <= r.totalPages ==>
                  GetMany(rows, caller, input.(page := Some(k))) ==
                    Ok(Paged(Window(listing, Offset(k, size), size), r.total, r.totalPages)))
            && Pages(listing, size, r.totalPages) == listing
            && |listing| == r.total
  {
    var r := GetMany(rows, caller, input).value;
    forall k | 1 <= k <= r.totalPages
      ensures GetMany(rows, caller, input.(page := Some(k))) ==
                Ok(Paged(Window(Listing(rows, caller, input.search), Offset(k, input.pageSize.GetOr(DEFAULT_PAGE_SIZE)),
                                input.pageSize.GetOr(DEFAULT_PAGE_SIZE)), r.total, r.totalPages))
    {
      NthPage(rows, caller, input, k);
    }
    PagesCoverAll(Listing(rows, caller, input.search), input.pageSize.GetOr(DEFAULT_PAGE_SIZE));
  }

  /** With the table's ids distinct, no agent is listed twice. */
  lemma ListingDistinct(rows: seq<Agent>, caller: string, search: Option<string>)
    requires DistinctIds(rows, AgentKey)
    ensures DistinctIds(Listing(rows, caller, search), ItemKey)
  {
    var selected := Filter(rows, Where(caller, search));
    FilterKeepsDistinct(rows, Where(caller, search), AgentKey);
    SortKeepsDistinct(selected, AgentKey);
  }

  /** Other users' agents have no influence on what `getMany` returns. */
  lemma GetManyIsolated(rows: seq<Agent>, caller: string, input: GetManyInput)
    ensures GetMany(rows, caller, input) == GetMany(Filter(rows, OwnedBy(caller)), caller, input)
  {
    var owned := Filter(rows, OwnedBy(caller));
    var w := Where(caller, input.search);
    FilterAbsorb(rows, OwnedBy(caller), w);
    CountIsFilterLength(rows, w);
    CountIsFilterLength(owned, w);
    assert Listing(rows, caller, input.search) == Listing(owned, caller, input.search);
  }

  /** Searches that differ only in letter case return the same result. */
  lemma SearchIgnoresCase(rows: seq<Agent>, caller: string, input: GetManyInput, search: string)
    requires input.search.Some? && Lower(input.search.value) == Lower(search)
    ensures GetMany(rows, caller, input) == GetMany(rows, caller, input.(search := Some(search)))
  {
    var w1, w2 := Where(caller, input.search), Where(caller, Some(search));
    assert |input.search.value| == |search|;
    FilterSame(rows, w1, w2);
    CountIsFilterLength(rows, w1);
    CountIsFilterLength(rows, w2);
    assert Listing(rows, caller, input.search) == Listing(rows, caller, Some(search));
  }

  /** A null or empty `search` filters nothing: it gives the result of
      leaving the field out. */
  lemma EmptySearchIgnored(rows: seq<Agent>, caller: string, input: GetManyInput)
    requires !Truthy(input.search)
    ensures GetMany(rows, caller, input) == GetMany(rows, caller, input.(search := None))
  {
    var w1, w2 := Where(caller, input.search), Where(caller, None);
    FilterSame(rows, w1, w2);
    CountIsFilterLength(rows, w1);
    CountIsFilterLength(rows, w2);
    assert Listing(rows, caller, input.search) == Listing(rows, caller, None);
  }

  // ---------------------------------------------------------------------
  // getOne, and the row `update` and `remove` act on
  // ---------------------------------------------------------------------

  /** The WHERE clause of `getOne`, `update` and `remove`. */
  predicate IsTarget(a: Agent, caller: string, id: string) {
    a.id == id && a.userId == caller
  }

  function Target(caller: string, id: string): Agent -> bool {
    (a: Agent) => IsTarget(a, caller, id)
  }

  function Keep(caller: string, id: string): Agent -> bool {
    (a: Agent) => !IsTarget(a, caller, id)
  }

  /** `getOne`: the caller's agent with this id, or NOT_FOUND whether the id
      is missing or belongs to another user. */
  function GetOne(rows: seq<Agent>, caller: string, id: string): (r: Result<AgentItem>)
    ensures r.Err? <==> forall a :: a in rows ==> !IsTarget(a, caller, id)
    ensures r.Err? ==> r.error == NotFound(AGENT_NOT_FOUND)
    ensures r.Ok? ==> r.value.agent in rows && IsTarget(r.value.agent, caller, id) &&
                      r.value.meetingCount == MEETING_COUNT
  {
    match First(rows, Target(caller, id))
    case None => Err(NotFound(AGENT_NOT_FOUND))
    case Some(a) => Ok(AgentItem(a, MEETING_COUNT))
  }

  /** Other users' agents have no influence on what `getOne` returns, so a
      foreign id looks exactly like a missing one. */
  lemma GetOneIsolated(rows: seq<Agent>, caller: string, id: string)
    ensures GetOne(rows, caller, id) == GetOne(Filter(rows, OwnedBy(caller)), caller, id)
  {
    FirstAbsorb(rows, OwnedBy(caller), Target(caller, id));
  }

  /** In a table with distinct ids, `getOne` returns the row with that id to its owner. */
  lemma GetOneFindsRow(rows: seq<Agent>, a: Agent)
    requires DistinctIds(rows, AgentKey) && a in rows
    ensures GetOne(rows, a.userId, a.id) == Ok(AgentItem(a, MEETING_COUNT))
  {
    FirstWithId(rows, Target(a.userId, a.id), AgentKey, a);
  }

  /** The new values `update` writes into a matching row; every other column is kept. */
  function Patch(a: Agent, input: AgentUpdate): Agent {
    a.(name := input.name, instructions := input.instructions)
  }

  /** Patching the caller's row with the payload's id keeps the ids distinct,
      and `getOne` then returns the patched row. */
  lemma PatchedTable(before: seq<Agent>, after: seq<Agent>, caller: string, input: AgentUpdate, found: Agent)
    requires DistinctIds(before, AgentKey) && found in before && IsTarget(found, caller, input.id)
    requires |after| == |before|
    requires forall i :: 0 <= i < |after| ==>
               after[i] == if IsTarget(before[i], caller, input.id) then Patch(before[i], input) else before[i]
    ensures DistinctIds(after, AgentKey)
    ensures GetOne(after, caller, input.id) == Ok(AgentItem(Patch(found, input), MEETING_COUNT))
  {
    assert forall i :: 0 <= i < |after| ==> after[i].id == before[i].id;
    var k :| 0 <= k < |before| && before[k] == found;
    assert after[k] == Patch(found, input);
    GetOneFindsRow(after, after[k]);
  }

  // ---------------------------------------------------------------------
  // The table and its mutations
  // ---------------------------------------------------------------------

  class AgentsTable {
    var rows: seq<Agent>

    /** `id` is the primary key. */
    predicate Valid()
      reads this
    {
      DistinctIds(rows, AgentKey)
    }

    constructor ()
      ensures Valid() && rows == []
    {
      rows := [];
    }

    /** `create`: validates the payload, then inserts one row owned by the
        caller. `id` and `now` are the values the database generates. */
    method Create(caller: string, input: AgentInsert, id: string, now: int) returns (r: Result<Agent>)
      requires Valid()
      requires forall a :: a in rows ==> a.id != id
      modifies this
      ensures Valid()
      ensures ValidateInsert(input).Err? ==> r == Err(ValidateInsert(input).error) && rows == old(rows)
      ensures ValidateInsert(input).Ok? ==>
                && r == Ok(Agent(id, caller, input.name, input.instructions, now, now))
                && rows == old(rows) + [r.value]
      ensures r.Ok? ==> GetOne(rows, caller, id) == Ok(AgentItem(r.value, MEETING_COUNT))
    {
      var checked := ValidateInsert(input);
      if checked.Err? {
        return Err(checked.error);
      }
      var created := Agent(id, caller, checked.value.name, checked.value.instructions, now, now);
      var before := rows;
      rows := rows + [created];
      forall i, j | 0 <= i < j < |rows|
        ensures AgentKey(rows[i]).id != AgentKey(rows[j]).id
      {
        if j == |before| {
          assert rows[i] in before;
        } else {
          assert rows[i] == before[i] && rows[j] == before[j];
        }
      }
      GetOneFindsRow(rows, created);
      r := Ok(created);
    }

    /** `remove`: deletes the caller's row with this id and returns it as it
        was; NOT_FOUND, with the table unchanged, when there is none. */
    method Remove(caller: string, id: string) returns (r: Result<Agent>)
      requires Valid()
      modifies this
      ensures Valid()
      ensures var found := First(old(rows), Target(caller, id));
              && (found.None? ==> r == Err(NotFound(AGENT_NOT_FOUND)) && rows == old(rows))
              && (found.Some? ==> && r == Ok(found.value)
                                  && rows == Filter(old(rows), Keep(caller, id))
                                  && |rows| == |old(rows)| - 1)
      ensures GetOne(rows, caller, id) == Err(NotFound(AGENT_NOT_FOUND))
    {
      var found := First(rows, Target(caller, id));
      if found.None? {
        return Err(NotFound(AGENT_NOT_FOUND));
      }
      var before := rows;
      rows := Filter(rows, Keep(caller, id));
      FilterKeepsDistinct(before, Keep(caller, id), AgentKey);
      AtMostOneWithId(before, Target(caller, id), AgentKey, id);
      CountIsFilterLength(before, Target(caller, id));
      assert found.value in Filter(before, Target(caller, id));
      FilterComplementLength(before, Target(caller, id), Keep(caller, id));
      r := Ok(found.value);
    }

    /** `update`: writes the payload into the caller's row with the payload's
        id and returns the row as updated; NOT_FOUND, with the table
        unchanged, when there is none. */
    method Update(caller: string, input: AgentUpdate) returns (r: Result<Agent>)
      requires Valid()
      modifies this
      ensures Valid()
      ensures |rows| == |old(rows)|
      ensures forall i :: 0 <= i < |rows| ==>
                rows[i] == if IsTarget(old(rows)[i], caller, input.id) then Patch(old(rows)[i], input)
                           else old(rows)[i]
      ensures var found := First(old(rows), Target(caller, input.id));
              && (found.None? ==> r == Err(NotFound(AGENT_NOT_FOUND)) && rows == old(rows))
              && (found.Some? ==> r == Ok(Patch(found.value, input)))
      ensures r.Ok? ==> GetOne(rows, caller, input.id) == Ok(AgentItem(r.value, MEETING_COUNT))
    {
      var found := First(rows, Target(caller, input.id));
      if found.None? {
        forall i | 0 <= i < |rows|
          ensures !IsTarget(rows[i], caller, input.id)
        {
          assert rows[i] in rows;
        }
        return Err(NotFound(AGENT_NOT_FOUND));
      }
      var before := rows;
      rows := seq(|before|, i requires 0 <= i < |before| =>
                if IsTarget(before[i], caller, input.id) then Patch(before[i], input) else before[i]);
      PatchedTable(before, rows, caller, input, found.value);
      r := Ok(Patch(found.value, input));
    }
  }
}
