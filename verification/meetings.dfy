/** The meetings router: `getMany` (meetings inner-joined to their agent) and
    `getOne` as queries over the meetings and agents tables, and `create` and
    `update` as methods of the meetings table. The router has no `remove`.
    The caller is the authenticated user's id, passed explicitly. */
module Meetings {
  import opened Common
  import opened Ordering
  import opened Pagination
  import Agents

  type Agent = Agents.Agent

  /** The lifecycle states of a meeting. */
  datatype MeetingStatus = Upcoming | Active | Completed | Processing | Cancelled

  /** The text a status is stored and sent as. */
  function StatusName(s: MeetingStatus): string {
    match s
    case Upcoming => "upcoming"
    case Active => "active"
    case Completed => "completed"
    case Processing => "processing"
    case Cancelled => "cancelled"
  }

  /** The `status` enum of the `getMany` input: accepts exactly the five names. */
  function ParseStatus(text: string): (r: Option<MeetingStatus>)
    ensures r.Some? ==> StatusName(r.value) == text
    ensures forall s :: StatusName(s) == text ==> r == Some(s)
  {
    if text == "upcoming" then Some(Upcoming)
    else if text == "active" then Some(Active)
    else if text == "completed" then Some(Completed)
    else if text == "processing" then Some(Processing)
    else if text == "cancelled" then Some(Cancelled)
    else None
  }

  /** A row of the meetings table. */
  datatype Meeting = Meeting(id: string, userId: string, agentId: string, name: string,
                             status: MeetingStatus, startedAt: Option<int>, endedAt: Option<int>,
                             createdAt: int, updatedAt: int)

  /** `EXTRACT(EPOCH FROM (ended_at - started_at))`, in whole seconds; NULL
      unless both times are set. */
  function Duration(m: Meeting): (d: Option<int>)
    ensures d.Some? <==> m.startedAt.Some? && m.endedAt.Some?
    ensures d.Some? ==> m.startedAt.value + d.value == m.endedAt.value
  {
    if m.startedAt.Some? && m.endedAt.Some? then Some(m.endedAt.value - m.startedAt.value) else None
  }

  /** A row as `getMany` returns it: the meeting's columns, its agent's row
      and the duration. */
  datatype MeetingItem = MeetingItem(meeting: Meeting, agent: Agent, duration: Option<int>)

  /** The `getMany` input. For `page` and `pageSize`, None stands for a field
      left out (which takes its default); for `search`, `agentId` and `status`,
      which are nullish, it stands for a field left out or null. */
  datatype GetManyInput = GetManyInput(page: Option<int>, pageSize: Option<int>, search: Option<string>,
                                       agentId: Option<string>, status: Option<string>)

  /** The three filters of an accepted `getMany` input. */
  datatype Filters = Filters(search: Option<string>, status: Option<MeetingStatus>, agentId: Option<string>)

  /** The `create` payload. */
  datatype MeetingInsert = MeetingInsert(name: string, agentId: string)

  /** The `update` payload: the row's id and its new name and agent. */
  datatype MeetingUpdate = MeetingUpdate(id: string, name: string, agentId: string)

  const MEETING_NOT_FOUND := "Meeting not found"

  /** PostgreSQL's rejection of a meeting whose agent id names no agent. */
  const FOREIGN_KEY_VIOLATION := "violates foreign key constraint on meetings.agent_id"

  function MeetingKey(m: Meeting): SortKey {
    SortKey(m.createdAt, m.id)
  }

  function ItemKey(it: MeetingItem): SortKey {
    MeetingKey(it.meeting)
  }

  // ---------------------------------------------------------------------
  // The getMany input
  // ---------------------------------------------------------------------

  /** The issue the `status` enum reports for a name outside it. */
  function StatusIssues(status: Option<string>): (r: seq<Issue>)
    ensures r == [] <==> status.None? || ParseStatus(status.value).Some?
    ensures r != [] ==> r == [Issue("status", InvalidEnumValue, None)]
  {
    if status.Some? && ParseStatus(status.value).None? then [Issue("status", InvalidEnumValue, None)] else []
  }

  /** The input schema accepts `input`: `pageSize` is in range and `status`,
      when given, is one of the five names. */
  predicate Accepted(input: GetManyInput) {
    PageSizeInRange(input.pageSize.GetOr(DEFAULT_PAGE_SIZE)) &&
    (input.status.None? || ParseStatus(input.status.value).Some?)
  }

  /** Every issue of the input, in the schema's field order. */
  function InputIssues(input: GetManyInput): (r: seq<Issue>)
    ensures r == [] <==> Accepted(input)
  {
    PageSizeIssues(input.pageSize.GetOr(DEFAULT_PAGE_SIZE)) + StatusIssues(input.status)
  }

  /** The filters of an input whose `status`, when given, is one of the five names. */
  function ParseFilters(input: GetManyInput): (f: Filters)
    ensures f.search == input.search && f.agentId == input.agentId
    ensures Accepted(input) ==>
              (f.status.None? <==> input.status.None?) &&
              (f.status.Some? ==> StatusName(f.status.value) == input.status.value)
  {
    Filters(input.search, if input.status.Some? then ParseStatus(input.status.value) else None, input.agentId)
  }

  // ---------------------------------------------------------------------
  // The join and the shared WHERE clause
  // ---------------------------------------------------------------------

  function HasId(id: string): Agent -> bool {
    (a: Agent) => a.id == id
  }

  /** `it` is a row of the inner join of `ms` and `agents`. */
  predicate Joins(it: MeetingItem, ms: seq<Meeting>, agents: seq<Agent>) {
    it.meeting in ms && it.agent in agents && it.agent.id == it.meeting.agentId &&
    it.duration == Duration(it.meeting)
  }

  /** The rows `meetings INNER JOIN agents ON meetings.agent_id = agents.id`
      produces for the meeting `m`: one per agent row with its agent id. */
  function JoinRows(m: Meeting, agents: seq<Agent>): (r: seq<MeetingItem>)
    ensures forall it :: it in r <==> it.meeting == m && it.agent in agents &&
                                      it.agent.id == m.agentId && it.duration == Duration(m)
  {
    var matched := Filter(agents, HasId(m.agentId));
    var r := seq(|matched|, i requires 0 <= i < |matched| => MeetingItem(m, matched[i], Duration(m)));
    JoinRowsMembers(m, agents, matched, r);
    r
  }

  lemma JoinRowsMembers(m: Meeting, agents: seq<Agent>, matched: seq<Agent>, r: seq<MeetingItem>)
    requires matched == Filter(agents, HasId(m.agentId))
    requires |r| == |matched| && forall i :: 0 <= i < |r| ==> r[i] == MeetingItem(m, matched[i], Duration(m))
    ensures forall it :: it in r <==> it.meeting == m && it.agent in agents &&
                                      it.agent.id == m.agentId && it.duration == Duration(m)
  {
    forall it: MeetingItem | it.meeting == m && it.agent in agents && it.agent.id == m.agentId && it.duration == Duration(m)
      ensures it in r
    {
      var i :| 0 <= i < |matched| && matched[i] == it.agent;
      assert r[i] == it;
    }
  }

  /** The whole inner join, meeting by meeting in table order. */
  function Joined(ms: seq<Meeting>, agents: seq<Agent>): (r: seq<MeetingItem>)
    ensures forall it :: it in r <==> Joins(it, ms, agents)
  {
    if ms == [] then []
    else
      assert ms == [ms[0]] + ms[1..];
      JoinRows(ms[0], agents) + Joined(ms[1..], agents)
  }

  /** The WHERE clause of both the fetch and the count query: the caller owns
      the meeting; `search`, when truthy, occurs in its name ignoring case;
      `status`, when given, is its status; `agentId`, when truthy, is its agent. */
  predicate Matches(m: Meeting, caller: string, f: Filters) {
    && m.userId == caller
    && (Truthy(f.search) ==> ContainsIgnoreCase(m.name, f.search.value))
    && (f.status.Some? ==> m.status == f.status.value)
    && (Truthy(f.agentId) ==> m.agentId == f.agentId.value)
  }

  function Where(caller: string, f: Filters): MeetingItem -> bool {
    (it: MeetingItem) => Matches(it.meeting, caller, f)
  }

  /** The count query: the joined rows the WHERE clause selects. */
  function CountMatching(ms: seq<Meeting>, agents: seq<Agent>, caller: string, f: Filters): nat {
    CountWhere(Joined(ms, agents), Where(caller, f))
  }

  /** Every row the fetch query selects before LIMIT and OFFSET, in its order.
      An agent joins whoever owns it. */
  function Listing(ms: seq<Meeting>, agents: seq<Agent>, caller: string, f: Filters): (r: seq<MeetingItem>)
    ensures forall it :: it in r <==> Joins(it, ms, agents) && Matches(it.meeting, caller, f)
    ensures NewestFirst(r, ItemKey)
    ensures |r| == CountMatching(ms, agents, caller, f)
  {
    var joined := Joined(ms, agents);
    var selected := Filter(joined, Where(caller, f));
    CountIsFilterLength(joined, Where(caller, f));
    SortMembers(selected, ItemKey);
    var r := SortNewestFirst(selected, ItemKey);
    assert forall it :: it in r <==> Joins(it, ms, agents) && Matches(it.meeting, caller, f) by {
      forall it
        ensures it in r <==> Joins(it, ms, agents) && Matches(it.meeting, caller, f)
      {
        assert it in r <==> it in selected;
        assert it in selected <==> it in joined && Where(caller, f)(it);
      }
    }
    r
  }

  // ---------------------------------------------------------------------
  // getMany
  // ---------------------------------------------------------------------

  /** `getMany`: validates `pageSize` and `status`, then fetches one page of
      the caller's matching meetings with their agents, newest first, and
      counts all of them. */
  function GetMany(ms: seq<Meeting>, agents: seq<Agent>, caller: string, input: GetManyInput)
    : (r: Result<Paged<MeetingItem>>)
    ensures var pageSize := input.pageSize.GetOr(DEFAULT_PAGE_SIZE);
            var page := input.page.GetOr(DEFAULT_PAGE);
            var f := ParseFilters(input);
            && (!Accepted(input) ==> r == Err(BadRequest(InputIssues(input))))
            && (Accepted(input) && page < 1 ==> r == Err(StorageError(NEGATIVE_OFFSET)))
            && (Accepted(input) && page >= 1 ==>
                  && r.Ok?
                  && r.value.items == Window(Listing(ms, agents, caller, f), Offset(page, pageSize), pageSize)
                  && r.value.total == CountMatching(ms, agents, caller, f)
                  && r.value.totalPages == CeilDiv(r.value.total, pageSize))
    ensures r.Ok? ==> && |r.value.items| <= input.pageSize.GetOr(DEFAULT_PAGE_SIZE)
                      && NewestFirst(r.value.items, ItemKey)
                      && forall it :: it in r.value.items ==>
                           && it.meeting in ms && it.meeting.userId == caller
                           && it.agent in agents && it.agent.id == it.meeting.agentId
                           && (Truthy(input.search) ==> ContainsIgnoreCase(it.meeting.name, input.search.value))
                           && (input.status.Some? ==> StatusName(it.meeting.status) == input.status.value)
                           && (Truthy(input.agentId) ==> it.meeting.agentId == input.agentId.value)
  {
    var pageSize := input.pageSize.GetOr(DEFAULT_PAGE_SIZE);
    var page := input.page.GetOr(DEFAULT_PAGE);
    if !Accepted(input) then
      Err(BadRequest(InputIssues(input)))
    else if Offset(page, pageSize) < 0 then
      Err(StorageError(NEGATIVE_OFFSET))
    else
      var f := ParseFilters(input);
      var listing := Listing(ms, agents, caller, f);
      var items := Window(listing, Offset(page, pageSize), pageSize);
      assert forall it :: it in items ==> it in listing;
      var total := CountMatching(ms, agents, caller, f);
      Ok(Paged(items, total, CeilDiv(total, pageSize)))
  }

  /** Page n of an accepted input is the n-th window of the listing, and
      every page reports the same total and page count. */
  lemma NthPage(ms: seq<Meeting>, agents: seq<Agent>, caller: string, input: GetManyInput, n: int)
    requires Accepted(input) && n >= 1
    ensures var size := input.pageSize.GetOr(DEFAULT_PAGE_SIZE);
            var f := ParseFilters(input);
            var total := CountMatching(ms, agents, caller, f);
            GetMany(ms, agents, caller, input.(page := Some(n))) ==
              Ok(Paged(Window(Listing(ms, agents, caller, f), Offset(n, size), size), total, CeilDiv(total, size)))
  {
  }

  /** Requesting pages 1 to totalPages of a successful `getMany` returns the
      windows that, one after the other, are every matching joined row
      exactly once, newest first; there are `total` of them. */
  lemma AllPagesAreListing(ms: seq<Meeting>, agents: seq<Agent>, caller: string, input: GetManyInput)
    requires Accepted(input) && input.page.GetOr(DEFAULT_PAGE) >= 1
    ensures GetMany(ms, agents, caller, input).Ok?
    ensures var r := GetMany(ms, agents, caller, input).value;
            var size := input.pageSize.GetOr(DEFAULT_PAGE_SIZE);
            var listing := Listing(ms, agents, caller, ParseFilters(input));
            && (forall k :: 1 <= k <= r.totalPages ==>
                  GetMany(ms, agents, caller, input.(page := Some(k))) ==
                    Ok(Paged(Window(listing, Offset(k, size), size), r.total, r.totalPages)))
            && Pages(listing, size, r.totalPages) == listing
            && |listing| == r.total
  {
    var r := GetMany(ms, agents, caller, input).value;
    var listing := Listing(ms, agents, caller, ParseFilters(input));
    var size := input.pageSize.GetOr(DEFAULT_PAGE_SIZE);
    forall k | 1 <= k <= r.totalPages
      ensures GetMany(ms, agents, caller, input.(page := Some(k))) ==
                Ok(Paged(Window(listing, Offset(k, size), size), r.total, r.totalPages))
    {
      NthPage(ms, agents, caller, input, k);
    }
    PagesCoverAll(listing, size);
  }

  // ---------------------------------------------------------------------
  // What the result depends on
  // ---------------------------------------------------------------------

  function OnMeeting(p: Meeting -> bool): MeetingItem -> bool {
    (it: MeetingItem) => p(it.meeting)
  }

  /** Joining a selection of the meetings selects the joined rows of those meetings. */
  lemma {:induction false} JoinedFilter(ms: seq<Meeting>, agents: seq<Agent>, p: Meeting -> bool)
    ensures Joined(Filter(ms, p), agents) == Filter(Joined(ms, agents), OnMeeting(p))
  {
    if ms != [] {
      var q := OnMeeting(p);
      var rows, tail := JoinRows(ms[0], agents), Joined(ms[1..], agents);
      JoinedFilter(ms[1..], agents, p);
      FilterConcat(rows, tail, q);
      assert Filter(Joined(ms, agents), q) == Filter(rows, q) + Filter(tail, q);
      var f := Filter(ms, p);
      if p(ms[0]) {
        FilterAll(rows, q);
        assert f[0] == ms[0] && f[1..] == Filter(ms[1..], p);
        assert Joined(f, agents) == rows + Joined(f[1..], agents);
      } else {
        FilterNone(rows, q);
        assert f == Filter(ms[1..], p);
      }
    }
  }

  /** Two filter sets that select the same meetings give the same listing and count. */
  lemma SameFilters(ms: seq<Meeting>, agents: seq<Agent>, caller: string, f1: Filters, f2: Filters)
    requires forall m :: Matches(m, caller, f1) == Matches(m, caller, f2)
    ensures Listing(ms, agents, caller, f1) == Listing(ms, agents, caller, f2)
    ensures CountMatching(ms, agents, caller, f1) == CountMatching(ms, agents, caller, f2)
  {
    FilterSame(Joined(ms, agents), Where(caller, f1), Where(caller, f2));
  }

  function OwnedBy(caller: string): Meeting -> bool {
    (m: Meeting) => m.userId == caller
  }

  /** Other users' meetings have no influence on what `getMany` returns
      (other users' agents do: the join does not look at the agent's owner). */
  lemma GetManyIsolated(ms: seq<Meeting>, agents: seq<Agent>, caller: string, input: GetManyInput)
    ensures GetMany(ms, agents, caller, input) == GetMany(Filter(ms, OwnedBy(caller)), agents, caller, input)
  {
    var f := ParseFilters(input);
    var joined := Joined(ms, agents);
    JoinedFilter(ms, agents, OwnedBy(caller));
    FilterAbsorb(joined, OnMeeting(OwnedBy(caller)), Where(caller, f));
    var owned := Filter(ms, OwnedBy(caller));
    CountIsFilterLength(joined, Where(caller, f));
    CountIsFilterLength(Joined(owned, agents), Where(caller, f));
    assert Listing(ms, agents, caller, f) == Listing(owned, agents, caller, f);
  }

  /** The meeting has a row in the agents table to join with. */
  function HasAgent(agents: seq<Agent>): Meeting -> bool {
    (m: Meeting) => exists a :: a in agents && a.id == m.agentId
  }

  /** A meeting whose agent id names no agent row appears neither in the
      items nor in the total: the result is that of the table without it. */
  lemma DanglingMeetingsHidden(ms: seq<Meeting>, agents: seq<Agent>, caller: string, input: GetManyInput)
    ensures GetMany(ms, agents, caller, input) == GetMany(Filter(ms, HasAgent(agents)), agents, caller, input)
  {
    var joined := Joined(ms, agents);
    JoinedFilter(ms, agents, HasAgent(agents));
    FilterAll(joined, OnMeeting(HasAgent(agents)));
    assert Joined(Filter(ms, HasAgent(agents)), agents) == joined;
  }

  /** Searches that differ only in letter case return the same result. */
  lemma SearchIgnoresCase(ms: seq<Meeting>, agents: seq<Agent>, caller: string, input: GetManyInput, search: string)
    requires input.search.Some? && Lower(input.search.value) == Lower(search)
    ensures GetMany(ms, agents, caller, input) == GetMany(ms, agents, caller, input.(search := Some(search)))
  {
    assert |input.search.value| == |search|;
    var other := input.(search := Some(search));
    SameFilters(ms, agents, caller, ParseFilters(input), ParseFilters(other));
  }

  /** An empty `search` or `agentId` filters nothing: it gives the result of
      leaving the field out. */
  lemma EmptyFiltersIgnored(ms: seq<Meeting>, agents: seq<Agent>, caller: string, input: GetManyInput)
    requires !Truthy(input.search) && !Truthy(input.agentId)
    ensures GetMany(ms, agents, caller, input) ==
            GetMany(ms, agents, caller, input.(search := None, agentId := None))
  {
    var other := input.(search := None, agentId := None);
    SameFilters(ms, agents, caller, ParseFilters(input), ParseFilters(other));
  }

  /** With both tables' ids distinct, the join yields each meeting at most once. */
  lemma {:induction false} JoinedDistinct(ms: seq<Meeting>, agents: seq<Agent>)
    requires DistinctIds(ms, MeetingKey) && DistinctIds(agents, Agents.AgentKey)
    ensures DistinctIds(Joined(ms, agents), ItemKey)
  {
    if ms != [] {
      var rest := ms[1..];
      assert DistinctIds(rest, MeetingKey) by {
        forall i, j | 0 <= i < j < |rest| ensures MeetingKey(rest[i]).id != MeetingKey(rest[j]).id {
          assert rest[i] == ms[i + 1] && rest[j] == ms[j + 1];
        }
      }
      JoinedDistinct(rest, agents);
      AtMostOneWithId(agents, HasId(ms[0].agentId), Agents.AgentKey, ms[0].agentId);
      var rows := JoinRows(ms[0], agents);
      if rows != [] {
        assert rows == [rows[0]];
        forall it | it in Joined(rest, agents)
          ensures ItemKey(it).id != ItemKey(rows[0]).id
        {
          var k :| 0 <= k < |rest| && rest[k] == it.meeting;
          assert ms[k + 1] == it.meeting;
        }
        PrependKeepsDistinct(rows[0], Joined(rest, agents), ItemKey);
      }
    }
  }

  /** With both tables' ids distinct, no meeting is listed twice. */
  lemma ListingDistinct(ms: seq<Meeting>, agents: seq<Agent>, caller: string, f: Filters)
    requires DistinctIds(ms, MeetingKey) && DistinctIds(agents, Agents.AgentKey)
    ensures DistinctIds(Listing(ms, agents, caller, f), ItemKey)
  {
    JoinedDistinct(ms, agents);
    FilterKeepsDistinct(Joined(ms, agents), Where(caller, f), ItemKey);
    SortKeepsDistinct(Filter(Joined(ms, agents), Where(caller, f)), ItemKey);
  }

  // ---------------------------------------------------------------------
  // getOne, and the row `update` acts on
  // ---------------------------------------------------------------------

  /** The WHERE clause of `getOne` and `update`. */
  predicate IsTarget(m: Meeting, caller: string, id: string) {
    m.id == id && m.userId == caller
  }

  function Target(caller: string, id: string): Meeting -> bool {
    (m: Meeting) => IsTarget(m, caller, id)
  }

  /** `getOne`: the caller's meeting with this id (its own columns only), or
      NOT_FOUND whether the id is missing or belongs to another user. */
  function GetOne(rows: seq<Meeting>, caller: string, id: string): (r: Result<Meeting>)
    ensures r.Err? <==> forall m :: m in rows ==> !IsTarget(m, caller, id)
    ensures r.Err? ==> r.error == NotFound(MEETING_NOT_FOUND)
    ensures r.Ok? ==> r.value in rows && IsTarget(r.value, caller, id)
  {
    match First(rows, Target(caller, id))
    case None => Err(NotFound(MEETING_NOT_FOUND))
    case Some(m) => Ok(m)
  }

  /** Other users' meetings have no influence on what `getOne` returns, so a
      foreign id looks exactly like a missing one. */
  lemma GetOneIsolated(rows: seq<Meeting>, caller: string, id: string)
    ensures GetOne(rows, caller, id) == GetOne(Filter(rows, OwnedBy(caller)), caller, id)
  {
    FirstAbsorb(rows, OwnedBy(caller), Target(caller, id));
  }

  /** In a table with distinct ids, `getOne` returns the row with that id to its owner. */
  lemma GetOneFindsRow(rows: seq<Meeting>, m: Meeting)
    requires DistinctIds(rows, MeetingKey) && m in rows
    ensures GetOne(rows, m.userId, m.id) == Ok(m)
  {
    FirstWithId(rows, Target(m.userId, m.id), MeetingKey, m);
  }

  /** The new values `update` writes into a matching row; every other column is kept. */
  function Patch(m: Meeting, input: MeetingUpdate): Meeting {
    m.(name := input.name, agentId := input.agentId)
  }

  /** Patching the caller's row with the payload's id keeps the ids distinct,
      and `getOne` then returns the patched row. */
  lemma PatchedTable(before: seq<Meeting>, after: seq<Meeting>, caller: string, input: MeetingUpdate, found: Meeting)
    requires DistinctIds(before, MeetingKey) && found in before && IsTarget(found, caller, input.id)
    requires |after| == |before|
    requires forall i :: 0 <= i < |after| ==>
               after[i] == if IsTarget(before[i], caller, input.id) then Patch(before[i], input) else before[i]
    ensures DistinctIds(after, MeetingKey)
    ensures GetOne(after, caller, input.id) == Ok(Patch(found, input))
  {
    assert forall i :: 0 <= i < |after| ==> after[i].id == before[i].id;
    var k :| 0 <= k < |before| && before[k] == found;
    assert after[k] == Patch(found, input);
    GetOneFindsRow(after, after[k]);
  }

  /** Some agent row has this id (the foreign key from meetings to agents holds). */
  predicate AgentExists(agents: seq<Agent>, id: string) {
    exists a :: a in agents && a.id == id
  }

  // ---------------------------------------------------------------------
  // The table and its mutations
  // ---------------------------------------------------------------------

  class MeetingsTable {
    var rows: seq<Meeting>

    /** `id` is the primary key. */
    predicate Valid()
      reads this
    {
      DistinctIds(rows, MeetingKey)
    }

    constructor ()
      ensures Valid() && rows == []
    {
      rows := [];
    }

    /** `create`: inserts one upcoming meeting owned by the caller, for any
        existing agent, whoever owns it. `agents` is the agents table, `id`
        and `now` are the values the database generates. */
    method Create(caller: string, input: MeetingInsert, agents: seq<Agent>, id: string, now: int)
      returns (r: Result<Meeting>)
      requires Valid()
      requires forall m :: m in rows ==> m.id != id
      modifies this
      ensures Valid()
      ensures !AgentExists(agents, input.agentId) ==> r == Err(StorageError(FOREIGN_KEY_VIOLATION)) && rows == old(rows)
      ensures AgentExists(agents, input.agentId) ==>
                && r == Ok(Meeting(id, caller, input.agentId, input.name, Upcoming, None, None, now, now))
                && rows == old(rows) + [r.value]
      ensures r.Ok? ==> GetOne(rows, caller, id) == Ok(r.value)
    {
      if !AgentExists(agents, input.agentId) {
        return Err(StorageError(FOREIGN_KEY_VIOLATION));
      }
      var created := Meeting(id, caller, input.agentId, input.name, Upcoming, None, None, now, now);
      var before := rows;
      rows := rows + [created];
      forall i, j | 0 <= i < j < |rows|
        ensures MeetingKey(rows[i]).id != MeetingKey(rows[j]).id
      {
        if j == |before| {
          assert rows[i] in before;
        } else {
          assert rows[i] == before[i] && rows[j] == before[j];
        }
      }
      GetOneFindsRow(rows, created);
      r := Ok(created);
    }

    /** `update`: writes the payload into the caller's row with the payload's
        id and returns the row as updated; NOT_FOUND when there is none, and
        the foreign key error when the new agent id names no agent, both with
        the table unchanged. */
    method Update(caller: string, input: MeetingUpdate, agents: seq<Agent>) returns (r: Result<Meeting>)
      requires Valid()
      modifies this
      ensures Valid()
      ensures var found := First(old(rows), Target(caller, input.id));
              && (found.None? ==> r == Err(NotFound(MEETING_NOT_FOUND)) && rows == old(rows))
              && (found.Some? && !AgentExists(agents, input.agentId) ==>
                    r == Err(StorageError(FOREIGN_KEY_VIOLATION)) && rows == old(rows))
              && (found.Some? && AgentExists(agents, input.agentId) ==>
                    && r == Ok(Patch(found.value, input))
                    && |rows| == |old(rows)|
                    && forall i :: 0 <= i < |rows| ==>
                         rows[i] == if IsTarget(old(rows)[i], caller, input.id) then Patch(old(rows)[i], input)
                                    else old(rows)[i])
      ensures r.Ok? ==> GetOne(rows, caller, input.id) == Ok(r.value)
    {
      var found := First(rows, Target(caller, input.id));
      if found.None? {
        return Err(NotFound(MEETING_NOT_FOUND));
      }
      if !AgentExists(agents, input.agentId) {
        return Err(StorageError(FOREIGN_KEY_VIOLATION));
      }
      var before := rows;
      rows := seq(|before|, i requires 0 <= i < |before| =>
                if IsTarget(before[i], caller, input.id) then Patch(before[i], input) else before[i]);
      PatchedTable(before, rows, caller, input, found.value);
      r := Ok(Patch(found.value, input));
    }
  }
}
