# Bar voting and visit calendar: a Dafny model of the route rules

The backend of this group-coordination application lets signed-in users
register bars, vote once a day for the bars they want to go to, and log
visits to bars on a calendar. All of its business logic lives in the SQL of
three Express route files. This project models the state those statements
read and change, and proves what each handler does to it.

- `store.dfy` (module `Store`): the rows of `bars`, `votes` and `visits`,
  the counters that hand out their ids (unbounded integers), the
  `Outcome` answer (`Ok | NotFound | Conflict | Invalid`), and the store
  invariant `Valid`. `Valid` says ids are unique and below their counters,
  votes and visits only name bar ids that were handed out, there is at
  most one vote per (user, bar, day), and at most one visit per (bar, day).
- `votes.dfy` (module `Votes`): cast, retract, today's tally, and the
  caller's own votes.
- `visits.dfy` (module `Visits`): record, edit notes, delete, and the full
  and ranged calendar listings.
- `bars.dfy` (module `Bars`): the name rule of the request schema, create,
  get, update, delete, and the listing with today's vote counts.
- `orphans.dfy` (module `Orphans`): what the read paths show once a bar has
  been deleted.
- `seqs.dfy` and `sorting.dfy`: a row filter with the multiset meaning of a
  `WHERE`, distinct keys, lexicographic name order, and a stable insertion
  sort specified as "ordered and a permutation".

Each handler is one pure, atomic function from a `Store` to a
`Reply(store, outcome)`, or to a value for the read paths. `today`, which the
source takes from the database's `CURRENT_DATE`, is a parameter. Dates are
day numbers. Every refusal leaves the store exactly as it was.

Facts about the code that shape the model:

- A repeated vote or visit is answered with HTTP 400
  (`backend/src/routes/votes.ts` line 57, `backend/src/routes/visits.ts`
  line 79). The model calls this `Conflict`.
- The own-votes query and both visit listings join with `bars`
  (`votes.ts` line 104, `visits.ts` lines 24 and 48), so rows whose bar no
  longer exists are not shown.
- The check-then-insert in cast and record is three separate queries in the
  code. The model treats each handler as one atomic step.

The schema file is not part of this model, so three things are assumed:

- The vote `INSERT` names no `vote_date`, so the new vote is taken to be
  stamped with `today`, which is what the two lookups by `CURRENT_DATE`
  expect.
- Ids come from counters that start at 1, never reuse a value and never run
  out.
- Deleting a bar removes only the bar row (`bars.ts` line 126 runs only
  `DELETE FROM bars`). Its votes and visits are assumed to stay in place, as
  they would without foreign keys. With a default foreign key the delete of
  a bar that has votes or visits would fail, and with `ON DELETE CASCADE`
  they would be deleted too. `Orphans.DeletedBarIsHidden` proves that, under
  this assumption, the read paths hide the rows left behind.

## Model

| member | source | states |
|---|---|---|
| Votes.Cast | backend/src/routes/votes.ts:37-67 | a missing bar gives NotFound and an existing (user, bar, today) vote gives Conflict, both with the store unchanged; otherwise exactly one vote (next id, user, bar, today) is appended and nothing else changes |
| Votes.Retract | backend/src/routes/votes.ts:78-91 | succeeds exactly when the caller has a vote for the bar today; the deleted rows are exactly those (user, bar, today) votes, every other vote keeps its multiplicity, no other table changes; otherwise NotFound with the store unchanged |
| Votes.CountOn | backend/src/routes/votes.ts:19-22 | today's count for a bar is zero exactly when no vote for that bar is dated that day |
| Votes.Tally | backend/src/routes/votes.ts:13-29 | ordered by vote count descending then name; a permutation of the per-bar groups; every row has a positive count equal to that bar's votes today, the name of an existing bar, and exactly today's voters of that bar; a bar appears exactly when it has votes today |
| Votes.MyVotes | backend/src/routes/votes.ts:99-109 | lists exactly the caller's votes dated today whose bar exists, each paired with that bar's name; with unique bar ids, each such vote appears exactly as often as it is stored and nothing else appears |
| Votes.CastPreservesValid | backend/src/routes/votes.ts:50-65 | a cast keeps the store invariant, including one vote per (user, bar, day) |
| Votes.RetractPreservesValid | backend/src/routes/votes.ts:82-84 | a retract keeps the store invariant |
| Votes.CastTwiceConflicts | backend/src/routes/votes.ts:50-59 | after a successful cast, the same cast answers Conflict and leaves the store as it is |
| Votes.CastThenRetract | backend/src/routes/votes.ts:62-65 | retracting right after a successful cast deletes exactly the inserted vote and restores the votes table |
| Votes.CastCountsOnce | backend/src/routes/votes.ts:19-25 | a successful cast raises its bar's count for today by one and leaves every other (bar, day) count unchanged |
| Votes.TallyHasBar | backend/src/routes/votes.ts:13-25 | the tally has a row for an id exactly when a bar with that id exists and has votes today |
| Votes.CastRetractLeavesTally | backend/src/routes/votes.ts:13-91 | a cast puts a bar that had no votes today into the tally, and the retract that follows takes it out again |
| Votes.MyVotesFollowCastAndRetract | backend/src/routes/votes.ts:62-105 | a successful cast shows in the caller's votes, and after the retract no vote of the caller for that bar is listed |
| Visits.Record | backend/src/routes/visits.ts:62-88 | a missing bar gives NotFound and an existing visit of that bar on that date gives Conflict, both with the store unchanged; otherwise one visit (next id, bar, date, notes, creator = caller) is appended and nothing else changes |
| Visits.UpdateNotes | backend/src/routes/visits.ts:99-113 | NotFound with the store unchanged when no visit has the id; otherwise only the notes of the visits with that id change, and the answer is such a visit with the new notes |
| Visits.Delete | backend/src/routes/visits.ts:121-131 | NotFound with the store unchanged when no visit has the id; otherwise exactly the visits with that id are deleted and no other row changes |
| Visits.ListAll | backend/src/routes/visits.ts:15-29 | a permutation of the visits whose bar exists, ordered by visit date descending |
| Visits.ListByRange | backend/src/routes/visits.ts:37-54 | a permutation of the visits whose bar exists and whose date lies within the inclusive range, ordered by date descending; empty when a bound is missing or start > end |
| Visits.RecordPreservesValid | backend/src/routes/visits.ts:73-86 | recording keeps the store invariant, including one visit per (bar, day) |
| Visits.UpdateNotesPreservesValid | backend/src/routes/visits.ts:104-107 | editing notes keeps the store invariant |
| Visits.DeletePreservesValid | backend/src/routes/visits.ts:125 | deleting a visit keeps the store invariant |
| Visits.RecordTwiceConflicts | backend/src/routes/visits.ts:73-80 | after a successful record, recording the same bar and date again, with any notes and caller, answers Conflict with the store unchanged |
| Visits.RecordThenDelete | backend/src/routes/visits.ts:83-86 | deleting the visit a record created deletes exactly that row and restores the visits table |
| Visits.RecordIsListed | backend/src/routes/visits.ts:15-51 | a recorded visit shows in the full listing and in the one-day range of its own date |
| Visits.RangeWithinAll | backend/src/routes/visits.ts:15-51 | the range listing holds the same rows as the full listing cut down to the range |
| Bars.List | backend/src/routes/bars.ts:15-35 | ordered by name; each bar row occurs exactly as often as it is stored, paired with the number of its votes dated today (0 when none), and no other row occurs |
| Bars.Get | backend/src/routes/bars.ts:41-71 | answers a bar with that id and today's count for it exactly when such a bar exists, NotFound otherwise |
| Bars.Create | backend/src/routes/bars.ts:76-93 | a name whose length is outside 1..255 gives Invalid with the store unchanged; otherwise one bar (next id, name, address, description, creator = caller) is appended and nothing else changes |
| Bars.Update | backend/src/routes/bars.ts:96-118 | an invalid name gives Invalid, checked before the lookup; a missing bar gives NotFound; both leave the store unchanged; otherwise only name, address and description of the bars with that id change |
| Bars.Delete | backend/src/routes/bars.ts:121-138 | NotFound with the store unchanged when no bar has the id; otherwise exactly the bar rows with that id are deleted, and votes and visits stay as they were |
| Bars.CreatePreservesValid | backend/src/routes/bars.ts:80-83 | creating a bar keeps the store invariant |
| Bars.UpdatePreservesValid | backend/src/routes/bars.ts:101-104 | updating a bar keeps the store invariant |
| Bars.DeletePreservesValid | backend/src/routes/bars.ts:125-128 | deleting a bar keeps the store invariant |
| Bars.CreateThenGet | backend/src/routes/bars.ts:41-83 | a bar just created is found by its id exactly as inserted, with 0 current votes |
| Bars.CreateThenDelete | backend/src/routes/bars.ts:80-128 | deleting the bar a create inserted deletes exactly that row and restores the bars table |
| Bars.GetAgreesWithList | backend/src/routes/bars.ts:15-66 | with unique bar ids, a row of the listing with a given id is exactly what the lookup by that id answers, current votes included |
| Orphans.DeletedBarIsHidden | backend/src/routes/bars.ts:121-128 | after a bar is deleted its votes and visits are still stored, but the tally, the caller's votes, both visit listings and the lookup by id show nothing of it |

## Left out

- Authentication, registration and login (`auth.ts`): password hashing and
  token signing are foreign libraries. The caller's id is a parameter.
- Express wiring, CORS and the migration script (`index.ts`,
  `migrate.ts`), and the whole frontend: HTTP plumbing, file I/O and UI.
- Concurrency: the check-then-insert sequences of cast and record are
  separate queries and can race. Each handler is modelled as one atomic step.
- The clock: `CURRENT_DATE` is the `today` parameter, and dates are day
  numbers rather than date strings.
- Database collation: `ORDER BY name` is modelled as lexicographic order
  on characters.
- Ties: SQL leaves the order of rows with equal sort keys open. The
  listings are only promised to be sorted and a permutation.
- Name length: the schema counts UTF-16 code units. The model counts the
  characters of a Dafny string.
- Casts the database performs on request values: a non-numeric `:id`, a
  non-integer `barId`, or a date string it cannot parse raises an error and
  gives HTTP 500. The model's ids and dates are already integers.
- HTTP status codes, zod error payloads and the JSON shapes are left out.
  The display columns joined from `users` (usernames) and `bars` (the bar's
  name and address in the visit listings) are left out too. The tally's `ARRAY_AGG` voters list
  is modelled as a multiset of user ids.
- A storage failure (HTTP 500) is not modelled. Every handler is assumed to
  reach the store.
- Id width: ids, counters and request ids are unbounded integers. In the
  database they are 32-bit integers. A `barId` or `:id` above 2147483647
  makes the database raise an error, and the source answers HTTP 500 where
  the model answers `NotFound`. A counter that runs out makes every insert
  fail. Neither case is modelled.
- Schema behaviour not visible in the route files: `vote_date` defaults,
  foreign-key cascades and unique constraints. The per-day uniqueness is
  proved from the handlers' own checks instead.
- Visits.ListAll: keeps a visit whenever its bar exists, rather than once
  per matching bar row. The two agree whenever bar ids are unique, and
  `Valid` guarantees that.
- Visits.ListByRange: the same semi-join as `Visits.ListAll`.
- Delete results: the deletes answer with the rows their `RETURNING`
  clause yields. The handlers themselves reply with a message only.
