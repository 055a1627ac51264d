# Agents and meetings: the owner-scoped CRUD layer

This project models the server side of the two resources of the
dashboard: **agents**, which are named instruction profiles, and
**meetings**, each of which references an agent. For each resource, the
tRPC router offers these procedures:

- `getMany`: a filtered, ordered, paginated list with a total count.
- `getOne`: one row.
- `create` and `update`.
- `remove`: agents only. The meetings router has none.

The model also covers `agentsInsertSchema`, the payload check that agent
`create` runs.

The database is an in-memory table. Each statement becomes an operation on
it:

- **The tables.** Each table is a class holding a sequence of rows, the
  `AgentsTable` and the `MeetingsTable`. Its invariant `Valid()` says that the
  ids (the primary key) are distinct.
- **Queries.** `getMany` and `getOne` are pure selections. They are
  functions over the rows and take the authenticated user's id (`caller`) as
  a parameter.
- **Mutations.** `create`, `update` and `remove` change the table. They are
  methods with `modifies`. The ids and timestamps the database generates are
  parameters of these methods.

Modules:

- `Common`: the results and errors.
  - Errors are `BadRequest` (zod issues), `NotFound` and `StorageError`.
  - The `ILIKE '%s%'` match.
  - `Filter`, `CountWhere` and `First`: the WHERE / `count(*)` / first-row
    operations the SQL statements are built from.
- `Ordering`: `ORDER BY created_at DESC, id DESC` as an insertion sort. It is
  proved to be a permutation that is ordered.
- `Pagination`:
  - the `pageSize` bounds;
  - `OFFSET (page - 1) * pageSize LIMIT pageSize`;
  - `Math.ceil(total / pageSize)`;
  - the fact that pages 1 to totalPages tile the ordered list.
- `AgentSchema`: `agentsInsertSchema`.
- `Agents` and `Meetings`: the two routers.

### Behaviour the model keeps as the code has it

- **`page` has no lower bound.** The input schemas declare `page` as
  `z.number({ coerce: true }).default(DEFAULT_PAGE)` with no `.min`
  (src/modules/agents/server/procedures.ts:20,
  src/modules/meetings/server/procedures.ts:21). The OFFSET is
  `(page - 1) * pageSize` (src/modules/agents/server/procedures.ts:50), so
  `page <= 0` gives a negative OFFSET, which PostgreSQL rejects. `GetMany`
  therefore returns `StorageError("OFFSET must not be negative")` for such a
  page. It is not a validation error, and the model places no precondition on
  `page`.
- **`meetingCount` is the literal 5** in both agent queries. The select sets it
  to ``sql`5` ``, under a `// TODO: change to actual value` comment
  (src/modules/agents/server/procedures.ts:38-39 and :77-78). It is not a count
  of the agent's meetings.
- **The meeting join ignores the agent's owner.** The join condition is only
  `meetings.agentId = agents.id` (src/modules/meetings/server/procedures.ts:55),
  and the WHERE clause restricts only `meetings.userId`. Meeting `create`
  inserts the payload with the caller as owner and sets no condition on the
  agent's owner (src/modules/meetings/server/procedures.ts:116-121); only the
  foreign key to `agents.id` applies. `update` restricts
  only the meeting's id and owner (src/modules/meetings/server/procedures.ts:136).
  So a caller's meeting can show another user's agent, and a meeting can be
  created for another user's agent.

## Model

| member | source | states |
|---|---|---|
| Common.IsSubstringAt | src/modules/agents/server/procedures.ts:45 | The recursive substring test behind `ILIKE '%s%'` holds exactly when the needle occurs at some position of the text |
| Common.CountIsFilterLength | src/modules/agents/server/procedures.ts:42-60 | A `count(*)` query and a row query with the same WHERE clause agree: the count is the number of rows selected |
| Common.FilterAbsorb | src/modules/agents/server/procedures.ts:44 | A WHERE clause that implies an earlier one makes the earlier selection redundant (used for ownership isolation) |
| Ordering.ComesBeforeTransitive | src/modules/agents/server/procedures.ts:48 | The `created_at DESC, id DESC` order is transitive |
| Ordering.ComesBeforeTotal | src/modules/agents/server/procedures.ts:48 | Any two rows are comparable in `created_at DESC, id DESC` order |
| Ordering.SortNewestFirst | src/modules/agents/server/procedures.ts:48 | The ordered rows are a permutation of the selected rows (same multiset) and every earlier row comes before every later one |
| Ordering.SortMembers | src/modules/agents/server/procedures.ts:48 | Ordering keeps exactly the rows given and their number |
| Ordering.SortKeepsDistinct | src/modules/agents/server/procedures.ts:48 | Ordering rows with distinct ids keeps the ids distinct |
| Ordering.AtMostOneWithId | src/modules/agents/server/procedures.ts:115 | In a table with distinct ids, at most one row matches `id = $id AND ...` |
| Pagination.PageSizeIssues | src/modules/agents/server/procedures.ts:21-25 | No issue exactly when MIN_PAGE_SIZE <= pageSize <= MAX_PAGE_SIZE; otherwise one `pageSize` issue, too_small exactly below the range and too_big exactly above it |
| Pagination.CeilDiv | src/modules/agents/server/procedures.ts:62 | `totalPages` is the least count of pages that holds `total`: total <= totalPages*size < total + size, and totalPages = 0 exactly when total = 0 |
| Pagination.Offset | src/modules/agents/server/procedures.ts:50 | `(page - 1) * pageSize` is never negative from page 1 on, and is negative for every page below 1 |
| Pagination.Window | src/modules/agents/server/procedures.ts:49-50 | LIMIT/OFFSET returns min(limit, rows left) rows, the i-th of them being row offset+i; nothing past the end |
| Pagination.PagesArePrefix | src/modules/agents/server/procedures.ts:49-50 | Pages 1 to n, one after the other, are the first min(n*size, length) rows |
| Pagination.PagesCoverAll | src/modules/agents/server/procedures.ts:48-62 | Pages 1 to ceil(total/size), one after the other, are the whole ordered list: no gaps, no repeats |
| Pagination.PageNonEmptyIff | src/modules/agents/server/procedures.ts:49-62 | For page >= 1, the page has rows exactly when page <= totalPages |
| Pagination.PagesDisjoint | src/modules/agents/server/procedures.ts:48-50 | Two different pages of a list with distinct ids share no id |
| AgentSchema.ValidateInsert | src/modules/agents/schemas/index.ts:3-8 | The payload is accepted exactly when name and instructions each have length >= 1, and is then unchanged (no trimming). A rejection is a BadRequest with one or two issues: "Name Agent is required" exactly when name is empty, and "Instructions Agent is required" exactly when instructions are empty |
| Agents.Listing | src/modules/agents/server/procedures.ts:35-48 | The fetch before LIMIT/OFFSET. Every item is a row of the table that the caller owns and, when search is truthy, whose name contains it ignoring case. Every such row appears. meetingCount is 5. The items are newest first. Their number is the count query's |
| Agents.GetMany | src/modules/agents/server/procedures.ts:19-69 | pageSize (default 10) out of range gives BadRequest with the pageSize issue. Otherwise page (default 1) below 1 gives the negative-OFFSET storage error. Otherwise items are exactly window (page-1)*pageSize of the listing, total is the count, and totalPages = ceil(total/pageSize). Items are at most pageSize, newest first, owned by the caller and matching the search |
| Agents.NthPage | src/modules/agents/server/procedures.ts:48-62 | With pageSize in range, page n >= 1 returns the n-th window of the listing with the same total and totalPages as every other page |
| Agents.AllPagesAreListing | src/modules/agents/server/procedures.ts:48-62 | An accepted input with page >= 1 succeeds; each of pages 1..totalPages then returns its window, the windows tile the whole ordered listing, and total is the listing's length |
| Agents.ListingDistinct | src/modules/agents/server/procedures.ts:41-48 | With distinct ids in the table, no agent is listed twice |
| Agents.GetManyIsolated | src/modules/agents/server/procedures.ts:44-57 | Other users' agents have no influence on the result: it equals the result over the caller's rows only |
| Agents.SearchIgnoresCase | src/modules/agents/server/procedures.ts:45-58 | Two searches equal up to letter case give the same result |
| Agents.EmptySearchIgnored | src/modules/agents/server/procedures.ts:45-58 | A null or empty search gives the result of no search |
| Agents.GetOne | src/modules/agents/server/procedures.ts:71-93 | NotFound("Agent not found") exactly when no row has this id and the caller as owner. Otherwise the item is such a row, with meetingCount 5 |
| Agents.GetOneIsolated | src/modules/agents/server/procedures.ts:82 | Other users' rows have no influence, so a foreign id gives the same NotFound as a missing one |
| Agents.GetOneFindsRow | src/modules/agents/server/procedures.ts:74-83 | In a table with distinct ids, the owner of a row gets that very row |
| Agents.PatchedTable | src/modules/agents/server/procedures.ts:132-138 | Setting name and instructions on the matching rows keeps ids distinct, and getOne then returns the patched row |
| Agents.AgentsTable.Create | src/modules/agents/server/procedures.ts:95-107 | An invalid payload returns the schema's error and leaves the table unchanged. Otherwise exactly one row is appended: owner the caller, the payload's name and instructions, the generated id and timestamps. That row is returned, the old rows are untouched, and getOne finds the new row |
| Agents.AgentsTable.Remove | src/modules/agents/server/procedures.ts:109-127 | With no row of this id owned by the caller: NotFound and the table unchanged. Otherwise the row is returned as it was, exactly the rows not matching are kept, and the table shrinks by one. Afterwards getOne (and so a second remove) fails NotFound |
| Agents.AgentsTable.Update | src/modules/agents/server/procedures.ts:129-148 | Every matching row gets the payload's name and instructions, and every other row is unchanged. With no match: NotFound and nothing changes. Otherwise the updated row is returned and getOne sees it |
| Meetings.ParseStatus | src/modules/meetings/server/procedures.ts:29-37 | The status enum accepts a text exactly when it is the name of a status, and yields that status |
| Meetings.StatusIssues | src/modules/meetings/server/procedures.ts:29-37 | No issue exactly when status is absent or one of the five names; otherwise one invalid_enum_value issue on `status` |
| Meetings.InputIssues | src/modules/meetings/server/procedures.ts:20-38 | The input is accepted exactly when pageSize is in range and status, when given, is a status name |
| Meetings.ParseFilters | src/modules/meetings/server/procedures.ts:44 | For an accepted input the filters keep search and agentId as given, and status is absent exactly when not given and otherwise is the named status |
| Meetings.Duration | src/modules/meetings/server/procedures.ts:50 | The duration is present exactly when both times are set, and then startedAt + duration = endedAt |
| Meetings.JoinRows | src/modules/meetings/server/procedures.ts:55 | A meeting joins to exactly the agent rows whose id is its agentId, whoever owns them |
| Meetings.Joined | src/modules/meetings/server/procedures.ts:54-55 | A joined row is exactly a meeting of the table with an agent row of its agentId and the meeting's duration |
| Meetings.Listing | src/modules/meetings/server/procedures.ts:46-64 | The fetch before LIMIT/OFFSET. A row is in it exactly when it is a joined row whose meeting the caller owns and matches the search, status and agentId filters. The rows are newest first. Their number is the count query's |
| Meetings.GetMany | src/modules/meetings/server/procedures.ts:20-88 | A rejected input gives BadRequest with the pageSize issue, then the status issue. Otherwise page below 1 gives the negative-OFFSET storage error. Otherwise items are window (page-1)*pageSize of the listing, total is the count, and totalPages = ceil(total/pageSize). Each item is owned by the caller, joined to an agent row of its agentId, and obeys each truthy filter |
| Meetings.NthPage | src/modules/meetings/server/procedures.ts:64-87 | For an accepted input, page n >= 1 returns the n-th window of the listing with the same total and totalPages as every other page |
| Meetings.AllPagesAreListing | src/modules/meetings/server/procedures.ts:64-87 | An accepted input with page >= 1 succeeds; each of pages 1..totalPages then returns its window, the windows tile the whole listing, and total is its length |
| Meetings.JoinedFilter | src/modules/meetings/server/procedures.ts:55-62 | Filtering meetings before the join selects the same rows as filtering the joined rows on their meeting |
| Meetings.SameFilters | src/modules/meetings/server/procedures.ts:56-79 | The fetch and the count share one WHERE clause, so filter sets that select the same meetings give the same listing and the same count |
| Meetings.GetManyIsolated | src/modules/meetings/server/procedures.ts:58-74 | Other users' meetings have no influence on the result; the agents table is not restricted to the caller |
| Meetings.DanglingMeetingsHidden | src/modules/meetings/server/procedures.ts:55-71 | A meeting whose agentId names no agent row is in neither items nor total: the result equals that over the meetings that have an agent |
| Meetings.SearchIgnoresCase | src/modules/meetings/server/procedures.ts:59-75 | Two searches equal up to letter case give the same result |
| Meetings.EmptyFiltersIgnored | src/modules/meetings/server/procedures.ts:59-77 | A null or empty search and agentId give the result of leaving them out |
| Meetings.JoinedDistinct | src/modules/meetings/server/procedures.ts:55 | With distinct meeting ids and distinct agent ids, the join yields each meeting at most once |
| Meetings.ListingDistinct | src/modules/meetings/server/procedures.ts:54-64 | With distinct ids in both tables, no meeting is listed twice |
| Meetings.GetOne | src/modules/meetings/server/procedures.ts:90-110 | NotFound("Meeting not found") exactly when no meeting has this id and the caller as owner. Otherwise the result is such a meeting (its own columns) |
| Meetings.GetOneIsolated | src/modules/meetings/server/procedures.ts:99 | Other users' meetings have no influence, so a foreign id gives the same NotFound as a missing one |
| Meetings.GetOneFindsRow | src/modules/meetings/server/procedures.ts:93-100 | In a table with distinct ids, the owner of a meeting gets that very meeting |
| Meetings.PatchedTable | src/modules/meetings/server/procedures.ts:131-137 | Setting name and agentId on the matching rows keeps ids distinct, and getOne then returns the patched row |
| Meetings.MeetingsTable.Create | src/modules/meetings/server/procedures.ts:112-126 | With an existing agent of that id, whoever owns it, exactly one upcoming meeting is appended: owner the caller, the payload's name and agentId, no start or end, the generated id and timestamps. That meeting is returned and getOne finds it. Without such an agent: the foreign-key error and the table unchanged |
| Meetings.MeetingsTable.Update | src/modules/meetings/server/procedures.ts:128-147 | With no meeting of this id owned by the caller: NotFound and nothing changes. With a new agentId naming no agent: the foreign-key error and nothing changes. Otherwise every matching row gets the payload's name and agentId, all other rows are unchanged, the updated row is returned, and getOne sees it |

## Left out

- The React views, forms and dialogs, the auth client and session handling, tRPC transport, react-query cache invalidation and URL query state. None of them decides what the procedures return.
- Authentication. `protectedProcedure` is represented by the `caller` parameter. An unauthenticated call is not modelled.
- `src/constants` is not part of this model. DEFAULT_PAGE = 1, DEFAULT_PAGE_SIZE = 10, MIN_PAGE_SIZE = 1 and MAX_PAGE_SIZE = 100 are assumed. The properties do not depend on these values beyond 1 <= MIN_PAGE_SIZE.
- `z.number({ coerce: true })` also accepts numeric strings and fractions. The model takes `page` and `pageSize` as integers, so a fractional LIMIT or OFFSET is not modelled. In `getMany` input, `None` for `page` or `pageSize` stands for a field left out, which gets its default. An explicit `null` is different: `.default` applies only to `undefined`, so the coercion turns `null` into 0. A null `page` then gives the negative-OFFSET error and a null `pageSize` a `too_small` issue. Explicit nulls for these two fields are not modelled.
- `ILIKE` is modelled as a case-insensitive substring test with ASCII lower-casing. `%` and `_` inside the search text are taken literally, and locale-dependent case folding is not modelled.
- Text ids are ordered by code point (the C collation). A database collation that orders text differently is not modelled.
- `EXTRACT(EPOCH FROM ...)` yields fractional seconds. The model uses integer timestamps and their difference.
- The fetch and the count run as two statements outside a transaction. The model evaluates both against one state, so a write between them is not modelled.
- Storage being unreachable, and any database error other than the negative OFFSET and the meeting foreign key, are not modelled.
- The TODO about streaming calls in meeting `create` has no code and is not modelled.
- `agentsUpdateSchema`, `meetingsInsertSchema` and `meetingsUpdateSchema` are not part of this model. Consequences:
  - The agent update payload is taken as `{id, name, instructions}`.
  - The meeting payloads are taken as `{name, agentId}`, plus `id` for update.
  - None of the three is validated.
- The database schema is not part of this model. The following are assumptions:
  - A new meeting has status `upcoming` and no start or end time.
  - `createdAt` and `updatedAt` are both the insert time.
  - `update` leaves `updatedAt` as it was.
  - The foreign key from `meetings.agent_id` to `agents.id` is enforced; the error text is the model's own.
- What deleting an agent does to the meetings that reference it (cascade or restrict) is not modelled. `AgentsTable.Remove` does not touch the meetings table.
- Agents.AgentsTable.Create: requires an id that no row has. The database generates it, and a duplicate would be a unique-key error that is not modelled.
- Meetings.MeetingsTable.Create: requires an id that no row has, for the same reason.
