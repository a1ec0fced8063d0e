# Task Management API: a Dafny model of its request handlers

The service is a small Go/gin HTTP API over a single SQLite table, `MANAGEMENT`, with
five task routes: create (`POST /MANAGEMENT`), retrieve, update and delete
(`GET`/`PUT`/`DELETE /MANAGEMENT/:id`), and list (`GET /MANAGEMENT`). This project
models those five handlers as pure transitions over an abstract table and proves what
each one promises, alone and in sequence.

- `wrappers.dfy` (`Wrappers`): the `Option` datatype.
- `full_date.dfy` (`FullDate`): the due-date check. `createTask` accepts a `due_date`
  only if Go's `time.Parse("2006-01-02", …)` accepts it, and stores the value formatted
  back with the same layout. `ValidFullDate` stands in for that library call. It accepts
  exactly the `full-date` of section 5.6 of RFC 3339: `4DIGIT "-" 2DIGIT "-" 2DIGIT`. The
  month must be 01-12. The day must exist in that month, as in section 5.7 of RFC 3339,
  with the Gregorian leap-year rule. `ParseFullDate`/`FormatFullDate` model the parse and
  the format. The model proves that an accepted string is already canonical, so the
  stored due date is the submitted one.
- `task_store.dfy` (`TaskStore`): the table. `Store` is a `map<int, Row>` keyed by the
  `id` column plus `nextId`, the AUTOINCREMENT counter. Deletions never lower the counter,
  so an id is never issued twice. `Valid` is the table invariant: every stored id lies in
  `[1, nextId)` and the counter has not passed SQLite's largest rowid. `ScanRows`/`AllTasks`
  model the full-table `SELECT`.
- `handlers.dfy` (`Handlers`): `CreateTask`, `RetrieveTask`, `UpdateTask`, `DeleteTask` and
  `ListAllTasks`. Each takes the table and returns `Transition(store', response)`. A
  response is a status code (201/200/400/404/500) and one of the JSON bodies the handlers
  send. `Handle` dispatches a `Request` to its handler.
- `request_sequences.dfy` (`RequestSequences`): properties spanning several requests. These
  cover read-after-write, delete-then-read, ids never being reissued over any run, and N
  creates listing N rows.

Inputs the handlers get from libraries are explicit parameters:
- `Binding` is whether `ShouldBindJSON` could bind the body.
- `Faults` says which store statements fail on this request: a `SELECT`, the write, the
  re-read after an update, or decoding a listed row. It also says whether the listing's
  cursor stops early. The handler never reads the cursor's error, so an early stop
  answers with the rows read so far.
- A path id that is not an integer is `None` and matches no row.

The model keeps one behaviour as written: `updateTask` does not validate `due_date` and
stores it verbatim (`UpdateSkipsDateCheck`). So a table can hold a due date that create
would refuse.

Modelling choices:
- The listing is in ascending id order. That is the order SQLite walks a rowid table in
  when the `SELECT` has no `ORDER BY`.
- An AUTOINCREMENT table whose counter has reached 9223372036854775807 refuses further
  inserts. `CreateTask` answers 500 then, as it does for any other insert failure.

## Model

| member | source | states |
|---|---|---|
| FullDate.DecodeDigits | main.go:79 | the value of an all-digit field is below 10 to the power of its width |
| FullDate.EncodeDigits | main.go:86 | a zero-padded field has exactly the requested width and only digits |
| FullDate.DecodeEncode | main.go:79-86 | reading a zero-padded field back gives the number that was written, when it fits the width |
| FullDate.EncodeDecode | main.go:79-86 | re-padding the value of a digit field gives back the same characters, leading zeros included |
| FullDate.FormatFullDate | main.go:86 | formatting a real date yields a string the parser accepts and whose fields are that date |
| FullDate.FormatFields | main.go:86 | the formatted string has the `DDDD-DD-DD` shape and its fields read back as the date |
| FullDate.ValidFullDate | main.go:79-83 | an accepted due date has the `DDDD-DD-DD` shape, a month 1-12 and a day 1-31, and February 29th only in a leap year; `AcceptedIffFormatted` pins the accepted set down exactly |
| FullDate.ParseFullDate | main.go:79-83 | the parse succeeds exactly on RFC 3339 full-dates naming a real day, and the parsed date formats back to the input |
| FullDate.FullDateCanonical | main.go:79-86 | an accepted due date is already canonical: parse-then-format returns the submitted string |
| FullDate.ParseFormat | main.go:79-86 | parsing a formatted date gives back that date |
| FullDate.AcceptedIffFormatted | main.go:79-86 | a string is accepted if and only if it is the formatted form of some real date |
| FullDate.DecodeTwo | main.go:79 | a two-digit field's value is ten times its first digit plus its second |
| FullDate.DecodeFour | main.go:79 | a four-digit year's value is its digits in positional notation |
| FullDate.DateFieldsSpelled | main.go:79 | year, month and day are read from characters 0-3, 5-6 and 8-9 |
| FullDate.PlainDateAccepted | main.go:79-83 | "2025-03-10" is accepted |
| FullDate.LeapDayAccepted | main.go:79-83 | "2024-02-29" is accepted: 2024 is a leap year |
| FullDate.CenturyLeapDayAccepted | main.go:79-83 | "2000-02-29" is accepted: a century divisible by 400 is a leap year |
| FullDate.CommonYearLeapDayRejected | main.go:79-83 | "2023-02-29" is refused |
| FullDate.CenturyLeapDayRejected | main.go:79-83 | "1900-02-29" is refused: a century not divisible by 400 is a common year |
| FullDate.MonthOutOfRangeRejected | main.go:79-83 | "2024-13-40" is refused |
| FullDate.DayOutOfRangeRejected | main.go:79-83 | "2024-04-31" is refused: April has 30 days |
| FullDate.ShapeRejected | main.go:79-83 | unpadded fields, two-digit years, trailing time text and other separators are refused |
| TaskStore.ScanRows | main.go:198-215 | a scan of an id range returns one task per stored id in the range, each equal to its row, in strictly ascending id order |
| TaskStore.AllTasks | main.go:198-215 | on a valid table the full scan lists every row exactly once, as stored, in ascending id order |
| Handlers.SelectTask | main.go:110-113 | a single-row `SELECT` yields a task iff the query succeeds and the id is stored; that task carries the path id and exactly the stored columns; the same lookup serves update's existence check and re-read (main.go:138-141, 161-164) |
| Handlers.CreateTask | main.go:70-102 | unbindable body or refused due date gives 400 and no write; success (201) happens iff body binds, date is valid, insert succeeds and ids remain; it adds exactly one row under a fresh id above every stored id, ignores any client id, and echoes the payload with that id; with a valid body, a failed insert or a used-up counter gives 500 "Failed to create task" and no write |
| Handlers.RetrieveTask | main.go:104-123 | 200 with exactly the stored row iff the id is present and the query succeeds, otherwise 404; the table never changes |
| Handlers.UpdateTask | main.go:127-172 | 400 before any lookup if the body does not bind; 404 with no write if the id is absent; otherwise all four columns are overwritten with the payload (due date unchecked), other rows and the id set stay unchanged, and the 200 response is the re-read row, equal to the payload under the path id; a failed re-read is a 500 after the write |
| Handlers.DeleteTask | main.go:174-193 | 200 iff the id is present and the statement succeeds, removing exactly that row and nothing else; an absent id is 404 with the table unchanged; the counter never moves back |
| Handlers.ListAllTasks | main.go:195-222 | a non-empty table lists every row exactly once; an empty table gives the "No tasks found" message rather than an empty list; a failed query is 500, and a row-decode failure is 500 only when a row was read; a cursor that stops after k rows is no error: the answer is the first k rows, every row when k is at least the row count, or "No tasks found" when k is 0, even on a non-empty table |
| Handlers.Handle | main.go:55-59 | every route keeps the table invariant, never lowers the counter, and adds rows only at ids not issued before |
| RequestSequences.RunPreservesValid | main.go:36 | every table reachable by any sequence of requests satisfies the invariant |
| RequestSequences.RunNeverReissues | main.go:36 | an id below the counter that holds no row never holds one again, whatever requests follow |
| RequestSequences.CreateThenRetrieve | main.go:88-122 | a created task reads back with 200 and exactly the body the create returned |
| RequestSequences.UpdateThenRetrieve | main.go:149-171 | after an update, a read returns the payload's fields under the unchanged id |
| RequestSequences.DeleteThenRetrieve | main.go:177-192 | after a delete, reading the id is 404 and deleting it again is 404 with no change |
| RequestSequences.DeleteThenCreateFreshId | main.go:36 | a create after a delete never gets the deleted id |
| RequestSequences.CreateThenDelete | main.go:88-192 | deleting a just-created task restores every row, while the counter stays advanced |
| RequestSequences.UpdateSkipsDateCheck | main.go:149-153 | a due date that create refuses with 400 is stored verbatim by update |
| RequestSequences.CreateIgnoresClientId | main.go:88-101 | the id inside a create payload has no effect on the outcome |
| RequestSequences.ListAgreesWithRetrieve | main.go:109-221 | every row a read returns appears in the listing |
| RequestSequences.CreateSucceeds | main.go:79-101 | a create with a valid date and no failure, while ids remain, stores the payload under the counter and advances it |
| RequestSequences.CreateAllAddsRows | main.go:88-101 | N successful creates keep the invariant, add N rows and advance the counter by N |
| RequestSequences.CreateAllKeepsRows | main.go:88-101 | those creates leave every earlier row untouched |
| RequestSequences.CreateAllStoresPayloads | main.go:88-101 | each id those creates hand out holds the payload created under it, in order |
| RequestSequences.CreateThenListAll | main.go:195-222 | after N creates on an empty table, the listing has exactly N entries; after none, it is the "No tasks found" message |
| RequestSequences.FirstCreateGetsIdOne | main.go:70-102 | creating "Buy milk" on an empty table returns 201 with id 1 and the submitted fields |

## Left out

- Process plumbing is left out: `main`, opening the database, creating the table, the port and the fatal exits (main.go:24-68). gin's path matching is left out too; `Handle` starts from a request already routed to one of the five handlers. The greeting route `GET /` is left out.
- SQLite and the SQL text are replaced by the map. A NOT NULL violation on `title` is not modelled, because a bound Go string is never NULL. SQLite's type-affinity conversion of the string path parameter is not modelled: a non-integer path id simply matches no row.
- JSON decoding inside `ShouldBindJSON` is reduced to its success or failure (`Binding`). Field defaults and type errors are not modelled.
- Go's `time.Parse`/`Format` internals are replaced by the RFC 3339 full-date predicate. Time zones and the `time.Time` value are not modelled.
- Logging and `fmt.Println` output (main.go:93, 107, 116, 121) are left out because they do not affect the response or the table.
- Concurrency is left out: each request is atomic, so update's check-then-write race between requests is not modelled.
- The causes of store failures are not modelled; `Faults` only says which statement fails.
- Handlers.UpdateTask: claims no atomicity on store-failure paths. A failed re-read answers 500 after the write is already in the table, and the model keeps that write.
- Handlers.ListAllTasks: its complete-listing properties assume the table invariant `Valid`. That invariant holds of every table reachable from the empty one (`RunPreservesValid`).
- Go's `int` on the response id (main.go:99) is not modelled as a machine word. On 64-bit platforms it never wraps, because rowids never exceed 2^63-1. On 32-bit platforms `int(taskID)` truncates ids above 2^31-1 in the create response; that case is not modelled.
- Reading the `due_date` column back is modelled as returning the stored text. The column is declared DATE (main.go:39). The SQLite driver (main.go:11) is not part of this model. It may hand values of a DATE-declared column back as timestamps. Those scan into text such as "2025-03-10T00:00:00Z", or "0001-01-01T00:00:00Z" for text that is not a date. DATE's numeric affinity can also store a digits-only due date as a number. The lines below name the members whose read results this affects.
- Handlers.RetrieveTask: its 200 body is the stored row as the table holds it, not the driver's converted `due_date` text.
- Handlers.UpdateTask: its re-read 200 body is the stored row as the table holds it, not the driver's converted `due_date` text.
- Handlers.ListAllTasks: the listed rows are as the table holds them, not with the driver's converted `due_date` text.
- RequestSequences.CreateThenRetrieve: equates the read with the create echo at the level of the table; after the driver's date conversion the `due_date` text of the two would differ.
- RequestSequences.UpdateThenRetrieve: the read equals the payload at the level of the table, not after the driver's date conversion.
- RequestSequences.UpdateSkipsDateCheck: states what the table stores; how the driver reads back a non-date `due_date` is not modelled.
