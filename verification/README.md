# Wedding RSVP backend: the shared business rules

This project models the business rules of a small wedding RSVP service. The
service has two interchangeable backends:

- a Google Apps Script web app that keeps the RSVPs in a spreadsheet
  (`google-apps-script.js`);
- an Express server that keeps them in a relational table (`server.js`).

Both accept a guest's submission (name, email, attendance, guest count,
dietary note, message). Both list the RSVPs with statistics, give the
guestbook comments, and delete an RSVP by id.

The spreadsheet is modelled as the sequence of its data rows below the header
(`seq<Row>`). Every operation is a pure function from the sheet (and the
request) to the new sheet and the response. The Express handlers are pure
functions too, over the decoded request body and the table as a row
sequence.

- **Text**: `Option`, the JavaScript truthiness of optional strings,
  `x || default`, `parseInt(...) || 1`, and `String.prototype.trim` over the
  ECMAScript white-space and line-terminator set.
- **Rsvp**: the record schema, the two attendance values, the fixed messages,
  the response payloads, and reference counts for the statistics.
- **Sheet**: `getNextId`, `addRsvp`, `getRsvps` (also as the loop itself),
  `getComments`, `deleteRsvp`, `doGet`, `doPost` and the JSONP wrapping.
- **SheetFacts**: properties that relate several sheet operations. They cover
  listing and guestbook order after a submission and the invariant every
  sheet built by the service keeps. They also state the places where the
  code allows what one might expect it to rule out.
- **Api**: the submit route, the statistics aggregate (as written and with
  zero sums), the delete status mapping and the comments query.
- **Agreement**: where the two backends agree and where they do not.

The code allows a few things one might expect it to rule out. The model
follows the code and proves each of them:

- One might expect ids never to be reused. `getNextId` takes one more than
  the largest id present, so deleting the row with the largest id hands that
  id out again (`SheetFacts.IdReusedAfterDelete`).
- One might expect an acceptance to count at least one guest. A parsed
  negative count is truthy and is stored as it is
  (`SheetFacts.NegativeGuestsKept`).
- The presence check looks at the untrimmed name. A name of only white space
  passes, is stored as the empty string, and `getRsvps` then skips the row
  (`SheetFacts.BlankNameStoredButUnlisted`). The SQL aggregate still counts
  it (`Agreement.BlankNameCountsOnlyInQuery`).
- The JSONP callback is not validated: any non-empty callback is wrapped as
  it is (`Sheet.Jsonp`).

## Model

| member | source | states |
|---|---|---|
| Text.Or | google-apps-script.js:112-117 | `(x \|\| "")`: a present, non-empty value is kept; an absent or empty one gives the default |
| Text.OrOne | google-apps-script.js:105 | `parseInt(guests, 10) \|\| 1` is never 0: a non-zero parsed value is kept, and NaN or 0 gives 1 |
| Text.Trim | google-apps-script.js:112 | the result has no leading or trailing white space and is no longer than the input; it is empty exactly when the input is all white space; an already trimmed string is unchanged |
| Text.TrimStripsEnds | google-apps-script.js:112 | the trimmed string is what lies between some all-white-space prefix and some all-white-space suffix of the input; with `Text.Trim`'s own contract (no white space at either end) this pins the result down |
| Text.TrimIdempotent | google-apps-script.js:112 | trimming twice is trimming once |
| Text.BlankIsTruthyButTrimsEmpty | google-apps-script.js:97-112 | a non-empty, all-white-space value passes the presence check yet trims to the empty string |
| Rsvp.LegalRowsSplit | google-apps-script.js:156-161 | when every attendance is one of the two legal values, the accepting rows and the declining rows together are all the rows |
| Sheet.MaxId | google-apps-script.js:29-31 | None exactly when every ID cell is blank; otherwise the value is one of the ids and no id exceeds it |
| Sheet.NextId | google-apps-script.js:25-32 | the next id is above every id present; it is 1 when the sheet is empty or holds only blank ids; otherwise it is one more than an id present |
| Sheet.AddRsvp | google-apps-script.js:94-122 | a missing name, email or attendance gives the "required" error; otherwise an illegal attendance gives the "invalid" error; in both cases the sheet is unchanged. Otherwise exactly one row is appended behind the unchanged old rows. The row's id is `getNextId` of the old sheet, is fresh, and is the returned id; the name, email, dietary note and message are trimmed (the last two default to ""); the guest count follows the guest rule; the row carries the creation time |
| Sheet.Tally | google-apps-script.js:156-161 | the running totals count every row, count the accepting rows as accepted and every other row as declined, and add only the accepting rows' guests |
| Sheet.GetRsvps | google-apps-script.js:124-173 | a listing of the named rows; its total is the listing's length and equals accepted plus declined; accepted counts the accepting rows, declined counts all the others, and the guest total sums over the accepting rows; an empty sheet gives zero statistics and no rows |
| Sheet.ScanRsvps | google-apps-script.js:135-172 | the loop as written (last row to first, skip empty names, push, count) computes exactly the listing and statistics of `Sheet.GetRsvps` |
| Sheet.FirstWithId | google-apps-script.js:211-216 | the first index whose id matches, or None exactly when no row matches |
| Sheet.DeleteRsvp | google-apps-script.js:201-219 | no id gives "ID is required."; no matching row (an empty sheet included) gives "RSVP not found." and leaves the sheet unchanged; otherwise the first matching row, and only it, is removed, the other rows keep their order, and the answer is "RSVP deleted successfully." |
| Sheet.Jsonp | google-apps-script.js:62-68 | a non-empty callback gives exactly the callback, `(`, the JSON text and `);`; otherwise the JSON text is sent bare |
| Sheet.DoGet | google-apps-script.js:34-69 | the action defaults to "rsvps"; "comments", "rsvp" and "delete" run their operation, and any other action lists the RSVPs; the text sent is the JSONP wrapping of the response's JSON |
| Sheet.DoPost | google-apps-script.js:71-92 | the action defaults to "rsvp"; "delete" deletes by the body's id and every other action submits the body; the text sent is the plain JSON of the response |
| SheetFacts.VisibleMembers | google-apps-script.js:139-154 | the listing holds exactly the sheet's rows whose name is non-empty |
| SheetFacts.VisibleAppend | google-apps-script.js:139-154 | the listing is newest first: an appended named row heads it, and an appended unnamed row leaves it unchanged |
| SheetFacts.CommentsSound | google-apps-script.js:186-196 | every guestbook entry has a trimmed, non-empty message and is the entry of some sheet row whose trimmed message is not empty |
| SheetFacts.CommentsComplete | google-apps-script.js:186-196 | every row whose trimmed message is not empty has its entry in the guestbook, whatever its name |
| SheetFacts.CommentsAppend | google-apps-script.js:186-196 | the guestbook is newest first: an appended row's entry heads it exactly when its trimmed message is not empty |
| SheetFacts.AppendThenList | google-apps-script.js:139-161 | appending a row moves the listing and each statistic by that row alone, and only when the row is named |
| SheetFacts.AddThenList | google-apps-script.js:106-161 | after a successful submission the listing gains the new row at its head exactly when the trimmed name is non-empty, and the statistics move by that row alone |
| SheetFacts.AddThenComments | google-apps-script.js:117-196 | after a successful submission the guestbook gains the new entry (trimmed name, trimmed message, creation time) at its head exactly when the trimmed message is non-empty |
| SheetFacts.BlankNameStoredButUnlisted | google-apps-script.js:97-141 | a white-space-only name is accepted and stored as "", and the listing and statistics do not change |
| SheetFacts.AppendKeepsConsistent | google-apps-script.js:110-119 | appending a well-formed row whose id exceeds every id present keeps every row well formed and the ids unique |
| SheetFacts.AddKeepsConsistent | google-apps-script.js:94-122 | every submission, accepted or refused, keeps every row well formed (legal attendance, guest rule, trimmed text) and the ids unique |
| SheetFacts.RemoveKeepsConsistent | google-apps-script.js:213 | removing one row keeps every row well formed and the ids unique |
| SheetFacts.DeleteKeepsConsistent | google-apps-script.js:201-219 | every deletion keeps every row well formed and the ids unique |
| SheetFacts.DeleteShrinksByOne | google-apps-script.js:201-219 | a successful deletion shortens the sheet by exactly one row; a refused one leaves it as it was |
| SheetFacts.IdReusedAfterDelete | google-apps-script.js:25-32 | a sheet holding ids 6 and 7 gives next id 8; deleting the row with id 7 leaves the row with id 6, and the next submission is given id 7 again |
| SheetFacts.NegativeGuestsKept | google-apps-script.js:105 | an acceptance with a parsed count of -2 stores -2 guests |
| SheetFacts.ReadActionsKeepSheet | google-apps-script.js:39-56 | a GET whose action is neither "rsvp" nor "delete" leaves the sheet unchanged and answers with a listing or the guestbook |
| SheetFacts.MissingActionLists | google-apps-script.js:35 | a GET with no action lists the RSVPs |
| SheetFacts.MissingActionSubmits | google-apps-script.js:82 | a POST with no action submits |
| SheetFacts.AcceptScenario | google-apps-script.js:94-173 | accepting for three guests on an empty sheet gives statistics 1 total, 1 accepted, 0 declined, 3 guests |
| SheetFacts.DeclineScenario | google-apps-script.js:105 | a decline is listed once with no guests, whatever count was sent |
| SheetFacts.MissingEmailScenario | google-apps-script.js:97-99 | a submission without an email is refused with the "required" error and stores nothing |
| Api.Submit | server.js:15-46 | a missing field gives 400 with the "required" error, checked before the attendance; an illegal attendance gives 400 with the "invalid" error; the status is 400 exactly when the submission is not admissible. Otherwise the bound values are the trimmed name and email, the attendance, the guest rule's count, and the dietary note and message defaulted to "" and trimmed. A successful insert gives 201 with the new row id; a failed one gives 500 "Failed to save RSVP." |
| Api.StatsFold | server.js:53-60 | the aggregate with zero sums: total counts the rows, accepted and declined count the rows holding each value, and the guest total sums over the accepting rows |
| Api.StatsQuery | server.js:53-60 | the aggregate as SQL computes it: COUNT is the number of rows; on an empty table the three SUMs are NULL; otherwise they are the accepted count, the declined count and the accepted guests |
| Api.DeleteWhere | server.js:74 | the rows left plus the rows changed are the table; nothing changes exactly when no row holds the id, and the table is then unchanged |
| Api.DeleteWhereMembers | server.js:74 | after the delete, a row remains exactly when it was in the table and does not hold the id |
| Api.DeleteReply | server.js:73-84 | zero changes give 404 "RSVP not found."; a positive count gives 200 "RSVP deleted successfully."; a failed statement gives 500 "Failed to delete RSVP." |
| Api.DeleteRoute | server.js:70-85 | 404 exactly when no row holds the id, with the table unchanged; otherwise 200 and a shorter table |
| Api.CommentsQueryMembers | server.js:90-92 | the query keeps exactly the rows whose message is not empty |
| Agreement.SubmitRefusesAlike | server.js:18-24 | the two submit paths refuse exactly the same submissions, with the same error, and neither stores anything then |
| Agreement.SubmitStoresAlike | server.js:32-39 | on an admissible submission the appended sheet row and the bound INSERT values agree field by field |
| Agreement.GuestCountAgrees | server.js:26 | both paths store the same guest count: 0 on a decline, the non-zero parsed count on an acceptance, and 1 otherwise |
| Agreement.VisibleAllNamed | google-apps-script.js:139-154 | when every name is non-empty, the listing is the whole sheet reversed |
| Agreement.TallyIsFold | server.js:53-60 | over rows with legal attendance, the loop's totals equal the SQL-style aggregate |
| Agreement.NamedRowsCountAlike | server.js:53-60 | when every name is non-empty, every row is listed, and the listing holds each attendance as often as the table does |
| Agreement.NamedRowsGuestsAlike | server.js:53-60 | when every name is non-empty, the listing's accepted guests are the table's |
| Agreement.StatsAgree | server.js:53-60 | with legal attendances, the aggregate over the listed rows equals the statistics of `getRsvps`, the empty sheet included |
| Agreement.StatsAgreeOnNamedRows | server.js:53-60 | with legal attendances and non-empty names, the aggregate over the whole table equals the statistics of `getRsvps` |
| Agreement.BlankNameCountsOnlyInQuery | server.js:55 | a stored row with an empty name counts in the SQL total but not in `getRsvps` |
| Agreement.EmptyStatsDiffer | server.js:53-60 | on an empty table the aggregate as written reports NULL sums where `getRsvps` reports zeros, and the zero-sum aggregate matches `getRsvps` |
| Agreement.StatsQueryAgreesWhenNonEmpty | server.js:53-60 | on a non-empty table the aggregate as written carries the zero-sum aggregate's numbers |
| Agreement.CommentsQueryAppend | server.js:90-92 | the comments query distributes over concatenation of tables |
| Agreement.CommentsAgree | server.js:90-92 | when every stored message is trimmed, the comments query over the rows newest first is exactly the guestbook of `getComments` |
| Agreement.DeleteWhereUnique | server.js:74 | with unique ids, deleting by the id of row i removes row i alone |
| Agreement.DeleteAgrees | server.js:74-80 | with unique ids, the sheet delete and the SQL delete leave the same rows and give the same answer; "not found" is exactly the 404 |
| Agreement.ConsistentSheetsAgree | server.js:53-92 | on every sheet the service's own operations build, the two backends agree on statistics over the listed rows, on the guestbook, and on deletion; the table-wide aggregate also counts blank-named rows, which the listing skips (`Agreement.BlankNameCountsOnlyInQuery`) |

## Left out

- SpreadsheetApp, ContentService and MIME types are foreign Apps Script services. The sheet is the row sequence, and the response text is a string.
- `new Date().toISOString()` and the `instanceof Date` conversion of the Created At cell. The creation time is a string parameter.
- `JSON.stringify` is a function parameter of `Sheet.DoGet` and `Sheet.DoPost`. `JSON.parse` of the POST body and its fallback to the form parameters are left out. The body arrives already decoded.
- The guest count arrives as the result of `parseInt(guests, 10)`, with None for NaN. Number parsing is not modelled.
- Express routing, CORS, the `res.status`/`json` plumbing, the static pages and `app.listen`.
- The SQL engine and `./database`, which is not part of this model. The table assigns the id and the creation time; `Api.Submit` takes the insert's outcome as a parameter.
- The listing query of GET `/api/rsvps` and the 500 answers of the listing and comments routes. These are plain pass-through of the engine.
- `ORDER BY created_at DESC`. The creation time is set by a database default that is not visible. `Agreement.CommentsAgree` compares against the rows newest first instead.
- The `message IS NOT NULL` half of the comments filter. Messages are strings here and never NULL.
- The race between `getNextId` and `appendRow` under concurrent requests.
- Non-string body values reaching `.trim()` in the submit route throw inside its `try` and get 500 "Failed to save RSVP." (`Api.Submit` with `run = None`). In `addRsvp`, a truthy non-string field from a JSON body reaching `(name || "").trim()` (google-apps-script.js:112) throws with nothing to catch it, since the `try` of `doPost` covers only `JSON.parse`. Every field is an optional string here.
- Loose equality `ids[i] == id` in `deleteRsvp`. Ids are already-parsed integers.
- Typed sheet cells: a blank Guests cell read as "", and a non-numeric ID cell that makes `Math.max` give NaN. Guests are integers, and an ID cell is an integer or blank.
- Sheet.DeleteRsvp: the argument is None for an absent or empty id. A numeric 0 from a JSON body is falsy in the source and gives "ID is required.", but here `Some(0)` is searched for like any other id. A query-string "0" is truthy and is searched for in the source too.
- Sheet.Visible and Sheet.CommentsOf: their own contracts state only a size bound. What they hold is stated by `SheetFacts.VisibleMembers`, `SheetFacts.VisibleAppend`, `SheetFacts.CommentsSound`, `SheetFacts.CommentsComplete` and `SheetFacts.CommentsAppend`.
- Sheet.GetComments (google-apps-script.js:175-199): its own contract only says the response is the guestbook `Sheet.CommentsOf` builds. Which entries it holds and in what order is stated by `SheetFacts.CommentsSound`, `SheetFacts.CommentsComplete` and `SheetFacts.CommentsAppend`.
- Api.CommentsQuery (server.js:90-92): its own contract states only a size bound. Which entries it holds is stated by `Api.CommentsQueryMembers`, its order by `Agreement.CommentsQueryAppend`, and its agreement with `getComments` by `Agreement.CommentsAgree`.

## Findings

| source | as written | input that shows it | evidently intended | confidence | as-written member | corrected member |
|---|---|---|---|---|---|---|
| server.js:53-60 | SQL `SUM` over no rows is NULL, so on an empty table `accepted`, `declined` and `total_guests` come back null while `total` is 0 | an empty `rsvps` table | zero sums, as the spreadsheet backend reports for an empty sheet | medium; not executed | Api.StatsQuery, Agreement.EmptyStatsDiffer | Api.StatsFold, Agreement.StatsAgree |
