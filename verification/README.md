# University management backend — query and validation model

A Dafny model of the data-access layer (`backend/crud.py`) and the API layer
(`main.py`) of a small university-management web service. The database is a
value: a `Store` with one sequence of rows per table (users, announcements,
assignments, lectures, subjects, chat groups, messages), in insertion order.
Queries are pure functions over it. Inserts return a new store and the added row.

- `wrappers.dfy`: `Option`, the model of Python's `None`.
- `query.dfy` (`Query`): a `WHERE` clause is `Filter`, `.offset(skip).limit(limit)` is `Page`,
  and `.filter(col == k).first()` is `FindBy`. `Distinct` says a column is unique.
  Each has lemmas: order preservation, AND-combination, tiling pages, unique-key lookup.
- `sorting.dfy` (`Sorting`): `ORDER BY created_at` as a stable insertion sort.
  It is proved sorted, a permutation, stable on equal keys and the identity on sorted input.
- `models.dfy` (`Models`): the records. Each row is its create payload (the `*Create` schema)
  plus the generated `id`, plus `createdAt` for tables with that column.
- `crud.py` → `crud.dfy` (`Crud`): `get_*`, `get_*s` and `create_*` for every table.
- `main.py` → `api.dfy` (`Api`): the endpoints, with 400/404 outcomes as a `Response` datatype.

Assumptions the model makes explicit:
- A query without `ORDER BY` returns rows in insertion order.
- Message ties on `created_at` keep insertion order, and the student join yields rows group by group.
  SQL leaves both orders open.
- The identifier an insert generates (a random UUID in the source) is a parameter `id`. It is required to be new in its table.
- The clock reading is a parameter `now`, and timestamps are natural numbers.
- `skip` and `limit` are natural numbers.
- `if department:` treats `None` and `""` alike, so a filter `Some("")` imposes nothing (`Crud.Given`).
- The student join compares `chat_groups.semester` with the student's optional semester.
  SQLAlchemy turns `== None` into `IS NULL`, and a chat group's semester is a required string.
  So a student without a semester reaches no group.

## Model

| member | source | states |
|---|---|---|
| Query.Filter | backend/crud.py:44-48 | the rows kept are exactly the table rows satisfying the predicate, each from the table |
| Query.FilterConcat | backend/crud.py:42-50 | filtering distributes over concatenation, so a filtered query keeps insertion order |
| Query.FilterThenFilter | backend/crud.py:44-48 | chaining `.filter(p)` then `.filter(q)` equals the single filter on `p AND q` |
| Query.FilterUniqueKey | backend/models.py:84 | on a unique key at most one row satisfies a predicate fixing that key |
| Query.Page | backend/crud.py:50 | the page has `min(limit, rows left after skip)` rows and its i-th row is row `skip + i` of the input |
| Query.PagesTile | backend/crud.py:50 | a page of `n` rows followed by the next page of `m` rows is the page of `n + m` rows |
| Query.PagePastEnd | backend/crud.py:50 | skipping at least all rows gives the empty page |
| Query.FindBy | backend/crud.py:9 | `.first()` yields nothing iff no row has the key, otherwise a table row carrying the key |
| Query.FindByUnique | backend/models.py:13 | on a unique key, looking up a row's key returns that very row |
| Query.AppendFresh | backend/models.py:13 | appending a row with an unused key keeps the key unique and makes that row the one found |
| Sorting.SortBy | backend/crud.py:222 | the ordered result is sorted by the key and is a permutation of its input |
| Sorting.SortStable | backend/crud.py:222 | rows sharing one key value come out in their table order |
| Sorting.SortSorted | backend/crud.py:222 | ordering already ordered rows changes nothing |
| Crud.Narrow | backend/crud.py:44-48 | a filter value that is `None` or `""` leaves the rows as they are; otherwise exactly the rows whose column equals it remain |
| Crud.NarrowIsFilter | backend/crud.py:44-45 | the conditional filter equals the plain filter on the predicate "no filter given, or the column equals it" |
| Crud.GetUser | backend/crud.py:8-9 | absent iff no user has the id; otherwise a stored user with that id |
| Crud.GetUserByEmail | backend/crud.py:11-12 | absent iff no user has the email; otherwise a stored user with that email |
| Crud.GetUsers | backend/crud.py:14-15 | exactly `min(limit, users left after skip)` users, the i-th being stored user `skip + i`; empty once `skip` passes the table |
| Crud.CreateUser | backend/crud.py:17-29 | exactly one user appended carrying the payload, the id and the clock; earlier rows and other tables unchanged; lookup by the id finds it; ids stay unique |
| Crud.GetAssignment | backend/crud.py:32-33 | absent iff no assignment has the id; otherwise a stored assignment with that id |
| Crud.GetAssignments | backend/crud.py:35-50 | at most `limit` stored rows, each matching every non-empty filter; with no filter a page of the whole table |
| Crud.GetAssignmentsIsFilterPage | backend/crud.py:42-50 | the listing is the page of the one filter on department AND semester |
| Crud.CreateAssignment | backend/crud.py:52-66 | exactly one assignment appended carrying the payload; the rest of the store unchanged; found by its id; ids stay unique |
| Crud.GetLecture | backend/crud.py:69-70 | absent iff no lecture has the id; otherwise a stored lecture with that id |
| Crud.GetLectures | backend/crud.py:72-91 | at most `limit` stored rows, each matching every non-empty filter of department, semester and date; with none a page of the table |
| Crud.GetLecturesIsFilterPage | backend/crud.py:80-91 | the listing is the page of the one filter on department AND semester AND date |
| Crud.CreateLecture | backend/crud.py:93-110 | exactly one lecture appended carrying the payload; the rest of the store unchanged; found by its id; ids stay unique |
| Crud.GetSubject | backend/crud.py:113-114 | absent iff no subject has the id; otherwise a stored subject with that id |
| Crud.GetSubjects | backend/crud.py:116-131 | at most `limit` stored rows, each matching every non-empty filter; with no filter a page of the table |
| Crud.GetSubjectsIsFilterPage | backend/crud.py:123-131 | the listing is the page of the one filter on department AND semester |
| Crud.CreateSubject | backend/crud.py:133-147 | exactly one subject appended carrying the payload; the rest of the store unchanged; found by its id; ids stay unique |
| Crud.GetAnnouncement | backend/crud.py:150-151 | absent iff no announcement has the id; otherwise a stored announcement with that id |
| Crud.VisibleAnnouncements | backend/crud.py:159-166 | with a non-empty department an announcement is kept iff its department is that one or null; without one, all are kept |
| Crud.VisibleIsScopedPlusGlobal | backend/crud.py:161-166 | with a department given, the kept rows are that department's announcements plus the global ones, each once |
| Crud.GetAnnouncements | backend/crud.py:153-168 | at most `limit` stored announcements, each scoped to the given department or global; from offset 0 with room for the table, exactly the visible ones |
| Crud.GetAnnouncementsIsFilterPage | backend/crud.py:159-168 | for every `skip` and `limit` the listing is the page of the announcements scoped to the department or global (all of them with no department) |
| Crud.CreateAnnouncement | backend/crud.py:170-182 | exactly one announcement appended carrying the payload; the rest of the store unchanged; found by its id; ids stay unique |
| Crud.GetChatGroup | backend/crud.py:185-186 | absent iff no chat group has the id; otherwise a stored group with that id |
| Crud.GetChatGroupsForTeacher | backend/crud.py:188-189 | at most `limit` stored groups, all with the given teacher; from offset 0 with room for the table, every such group |
| Crud.TeacherPagesSliceTheListing | backend/crud.py:188-189 | the complete listing is exactly the teacher's groups in table order, and every page is a slice of it |
| Crud.Hits | backend/crud.py:199-203 | a group has join partners iff its semester matches and a subject of the department has its subject id |
| Crud.JoinSubjects | backend/crud.py:199-204 | every joined row is a stored group the student reaches, and every reachable group appears |
| Crud.JoinIsFilter | backend/crud.py:199-204 | with subject ids unique, the join is the filter of the groups the student reaches, each once, in table order |
| Crud.GetChatGroupsForStudent | backend/crud.py:191-204 | an unknown student gets `[]`; otherwise at most `limit` stored groups, each with the student's semester and a subject of the student's department |
| Crud.StudentSemesterIgnored | backend/crud.py:191 | the result does not depend on the `semester` argument |
| Crud.StudentSeesAllReachable | backend/crud.py:199-204 | from offset 0 with room for the table, exactly the groups the student reaches, in table order |
| Crud.StudentPagesSliceTheListing | backend/crud.py:199-204 | with primary keys unique, every page of a student's groups is a slice of the complete listing |
| Crud.CreateChatGroup | backend/crud.py:206-216 | exactly one group appended carrying the payload; the rest of the store unchanged; found by its id; ids stay unique |
| Crud.Thread | backend/crud.py:220-221 | exactly the messages of the chat group |
| Crud.GetMessages | backend/crud.py:219-222 | at most `limit` stored messages, all of the chat group, in non-decreasing `created_at` order |
| Crud.MessagesPagedAfterSort | backend/crud.py:222 | each page is a slice of the one fully ordered thread, so paging comes after sorting |
| Crud.MessagesAreTheThreadInTimeOrder | backend/crud.py:219-222 | the full listing holds every message of the group exactly once, and equal timestamps keep insertion order |
| Crud.CreateMessage | backend/crud.py:224-233 | exactly one message appended carrying the payload; the rest of the store unchanged; found by its id; ids stay unique |
| Crud.LookupsReturnTheRow | backend/crud.py:8-9 | with primary keys unique, every point lookup by a stored row's id returns that row |
| Api.OrDefault | main.py:34 | an omitted paging parameter takes its default, a supplied one is used as given |
| Api.CreateUser | main.py:26-31 | a registered email gives 400 "Email already registered" and an unchanged store; otherwise one user appended; pairwise-distinct emails and ids stay so |
| Api.SecondRegistrationRejected | main.py:28-30 | after a registration, another with the same email is refused and the store is left as the first one made it |
| Api.ReadUsers | main.py:33-36 | with no paging parameters, the first 100 users in table order |
| Api.ReadUser | main.py:38-43 | the stored user with the id, or 404 "User not found" exactly when none has it |
| Api.CreateAssignment | main.py:46-48 | any payload is appended as one new row, no check |
| Api.ReadAssignments | main.py:50-59 | at most the given or default 100 rows; filters and paging passed through unchanged |
| Api.ReadAssignment | main.py:61-66 | the stored assignment with the id, or 404 "Assignment not found" exactly when none has it |
| Api.CreateLecture | main.py:69-71 | any payload is appended as one new row, no check |
| Api.ReadLectures | main.py:73-83 | at most the given or default 100 rows; filters and paging passed through unchanged |
| Api.CreateSubject | main.py:86-88 | any payload is appended as one new row, no check |
| Api.ReadSubjects | main.py:90-99 | at most the given or default 100 rows; filters and paging passed through unchanged |
| Api.CreateAnnouncement | main.py:102-104 | any payload is appended as one new row, no check |
| Api.ReadAnnouncements | main.py:106-114 | at most the given or default 100 rows; the department filter and paging passed through unchanged |
| Api.CreateChatGroup | main.py:117-119 | any payload is appended as one new row, no check |
| Api.ReadTeacherChatGroups | main.py:121-124 | at most the given or default 100 groups of the teacher |
| Api.ReadStudentChatGroups | main.py:126-133 | 404 "Student not found" exactly for an unknown student; otherwise the groups the student reaches, computed with the student's own semester |
| Api.ReadChatGroup | main.py:135-140 | the stored group with the id, or 404 "Chat group not found" exactly when none has it |
| Api.CreateMessage | main.py:143-145 | any payload is appended as one new row, no check |
| Api.ReadMessages | main.py:147-150 | at most the given or default 100 messages of the group, in time order |
| Api.CreatedRowsReadBack | main.py:38-43 | reading a freshly created user, assignment or chat group by its id returns the payload with that id and stamp |

## Left out

- The liveness route `GET /`, routing, dependency injection and the CORS policy (`main.py:10-23`): framework plumbing with no state.
- Engine and session lifecycle, `create_all`, `commit` and `refresh`: storage I/O. The store is a value.
- UUID generation: each create takes the `id` as a parameter and requires that no row of its table already has it.
- `datetime.utcnow`: each create that stamps a row takes `now` as a parameter. Timestamps are abstract naturals.
- Request validation and response serialisation, including embedding the owning user in responses: library behaviour.
- Database enforcement of unique `subjects.code`, of unique `users.email` below the API, and of foreign keys. The code never checks these, and violations would surface as unhandled storage errors.
- Crud.CreateUser: does not model the storage error a duplicate email would raise, because the only caller, `Api.CreateUser`, refuses duplicates first.
- Negative `skip` or `limit`: SQL behaviour for them is not modelled; both are natural numbers.
- The contents of `attachments`, `materials` and `prerequisites`: opaque strings, never parsed.
- Concurrency between requests.
- Crud.GetChatGroupsForStudent: the join's row order is fixed to group-by-group table order, where SQL leaves it open.
- Crud.GetMessages: ties on `created_at` are fixed to insertion order, where SQL leaves it open.
