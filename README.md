# HR records API: employees, attendance and dashboard

A Dafny model of the request-handling core of a small HR record keeper
(`server.py`). It stores employee documents and per-day attendance marks in
two collections and serves these endpoints: create, list and delete employees,
mark and list attendance, and a dashboard of today's counts.

- `results.dfy` (module `Results`) holds the `Option` and `Result` values that
  stand for optional query parameters and raised HTTP errors.
- `validation.dfy` (module `Validation`) holds the field validators of the
  request models. `not_empty` is Python's `str.strip()` plus an emptiness
  test. `validate_status` tests for the two status words. `validate_email` is
  the regular expression `^[a-zA-Z0-9._%+-]+@[a-zA-Z0-9.-]+\.[a-zA-Z]{2,}$`,
  given both as a declarative shape (`EmailShape`) and as an executable
  matcher (`MatchesEmail`), and the two are proved equal.
- `records.dfy` (module `Records`) holds the documents, the request bodies,
  the composed validation of each body (the 422 answer lists every failing
  field) and the HTTP errors.
- `seqs.dfy` (module `Seqs`) covers store queries as an order-keeping `Filter`
  and `to_list(n)` as `Take`.
- `tables.dfy` (module `Tables`) holds the two collections as sequences in
  insertion order, with:
  - `find_one`, `delete_one` (first match) and `delete_many` (the cascade);
  - the list queries with their 1000 and 5000 caps;
  - the store invariant `Consistent`, which each write keeps: unique
    `employee_id`, unique `email`, and every attendance record naming an
    existing employee.
- `dashboard.dfy` (module `Dashboard`) computes the four dashboard counts.
  Today's records are capped at 5000, and `unmarked_today` saturates at 0.
- `server.dfy` (module `Server`) holds class `Hrms`, whose `employees` and
  `attendance` fields are updated in place by the handlers. Each handler
  states its whole new state and keeps `Valid()`. A client scenario marks one
  employee twice on the same day.

The store's generated `id`, the creation and marking timestamps, and "today"
are parameters of the handlers.

The model follows the code at these points, where the code behaves
differently from what such an API might be expected to do:

- `mark_attendance` always inserts (server.py:163-164). There is no upsert,
  so the ledger may hold several records for one (employee, date). Each
  successful mark grows the ledger by exactly one record.
  `Server.RepeatedMarkScenario` shows that a Present mark then an Absent mark
  for the same day leaves two records. The dashboard then reports 1 present,
  1 absent and 0 unmarked, where an upsert would give 0, 1, 0.
- The dashboard returns only `total_employees`, `present_today`,
  `absent_today` and `unmarked_today` (server.py:185-190). It has no
  department breakdown and no recent activity.
- The `status` field runs through `not_empty` before `validate_status`. So
  `" Present "` is accepted and stored as `"Present"`. Case still matters:
  `"present"` is refused.
- The email pattern is matched on the raw value, and only then stripped. So
  leading or trailing spaces are refused. But Python's `$` also matches just
  before a final newline, so `"a@b.co\n"` is accepted and stored as
  `"a@b.co"`.

## Model

| member | source | states |
|---|---|---|
| Validation.TrimStart | server.py:54-56 | the result is a suffix of the input, everything cut off is whitespace, and the result does not start with whitespace |
| Validation.TrimEnd | server.py:54-56 | the result is a prefix of the input, everything cut off is whitespace, and the result does not end with whitespace |
| Validation.Strip | server.py:54-56 | `strip()` is empty exactly when the input is all whitespace; otherwise it neither starts nor ends with whitespace |
| Validation.StripCutAt | server.py:56 | `strip()` cuts `s` at two points: everything before the first and from the second on is whitespace, and the kept text starts and ends with non-whitespace |
| Validation.StripSliceAt | server.py:56 | the cut points lie within `s`, and `strip()` returns, character by character, the text of `s` between them |
| Validation.StripKeeps | server.py:56 | a string that starts and ends with non-whitespace is its own strip |
| Validation.StripIdempotent | server.py:56 | stripping twice equals stripping once |
| Validation.StripDropsFinalNewline | server.py:64 | for text with non-space ends, a trailing newline is exactly what `strip()` removes |
| Validation.NotEmpty | server.py:53-56 | `not_empty` accepts exactly the values with a non-whitespace character and returns the stripped value, which is non-empty with no surrounding whitespace; otherwise "Field is required" |
| Validation.NotEmptyKeeps | server.py:53-56 | a non-empty value without surrounding whitespace passes `not_empty` unchanged |
| Validation.NotEmptyIdempotent | server.py:53-56 | `not_empty` applied to its own output gives the same output |
| Validation.ValidateStatus | server.py:91-94 | accepts exactly "Present" and "Absent", returning the value unchanged; otherwise the status error message |
| Validation.ValidateStatusField | server.py:82-94 | the status field (after `not_empty`) is accepted exactly when its stripped form is "Present" or "Absent", and the stored status is that stripped form |
| Validation.StatusIsCaseSensitive | server.py:92 | "present", "ABSENT" and " Present" are rejected by `validate_status` |
| Validation.MatchesEmailCorrect | server.py:61-62 | the matcher accepts a string exactly when it splits into a non-empty local part from `[A-Za-z0-9._%+-]`, '@', a non-empty domain from `[A-Za-z0-9.-]`, '.', and at least two ASCII letters |
| Validation.EmailHasOneAt | server.py:61 | an address of that shape contains exactly one '@' |
| Validation.RegexMatchCorrect | server.py:61-62 | `re.match` accepts the value exactly when the value, or the value without one final newline, has the address shape |
| Validation.ValidateEmail | server.py:58-64 | `validate_email` accepts exactly the values whose whole text, or whole text less a final newline, has the address shape; the returned value has the shape and differs from the input at most by that newline |
| Validation.EmailShapeStrip | server.py:62-64 | `strip()` of an accepted value has the address shape and removes at most the final newline |
| Records.StatusCode | server.py:107-161 | a failed validation of the request model answers 422, a duplicate `employee_id` or email 409 (lines 110, 113), a missing employee 404 (lines 151, 161), and each code belongs to exactly one kind of error |
| Records.ValidateEmployee | server.py:45-64 | an employee body is accepted exactly when all four field validators accept; the stored fields are the stripped, non-empty id, name and department and an address-shaped email; a rejection names exactly the failing fields |
| Records.ValidateAttendance | server.py:77-94 | an attendance body is accepted exactly when id and date are non-blank and the stripped status is a status word; a rejection names exactly the failing fields |
| Records.CleanEmployeeAccepted | server.py:51-64 | an employee body with clean fields and an accepted email is stored as given |
| Records.CleanAttendanceAccepted | server.py:82-94 | an attendance body with clean fields and an exact status word is stored as given |
| Seqs.Filter | server.py:144 | a query returns only documents matching it, never more than the collection holds |
| Seqs.FilterCounts | server.py:153 | a filter drops every non-matching document and keeps every matching one with its multiplicity |
| Seqs.FilterMembers | server.py:171 | a document is in a query's result exactly when it is in the collection and matches |
| Seqs.FilterAppend | server.py:153 | filtering distributes over concatenation, so survivors keep their original order |
| Seqs.Take | server.py:144 | `to_list(n)` returns a prefix of at most n documents, the whole list when it is no longer than n |
| Tables.FirstIndexOf | server.py:109 | `find_one` by `employee_id` locates the first document with that key, and finds one exactly when the key is present |
| Tables.DeleteOne | server.py:149 | `delete_one` removes exactly the first document with the key and keeps the others in order; it changes nothing when the key is absent |
| Tables.DeleteRecordsOf | server.py:153 | `delete_many` leaves no record of the employee and keeps every other record as often as before |
| Tables.DeleteOneRemovesExactly | server.py:147-153 | with unique keys, deleting an employee removes exactly the employees with that key, keeping the rest in order |
| Tables.InsertKeepsUnique | server.py:109-116 | inserting after both duplicate checks pass keeps `employee_id` and `email` unique |
| Tables.DeleteOneKeepsUnique | server.py:149 | deleting an employee keeps both keys unique |
| Tables.InsertKeepsReferences | server.py:116 | a new employee leaves every attendance record's employee in place |
| Tables.DeleteKeepsReferences | server.py:149-153 | deleting an employee and cascading to its records leaves no record naming a missing employee |
| Tables.AppendKeepsReferences | server.py:160-164 | a record added after the existence check names an existing employee |
| Tables.LowerAscii | server.py:130 | `lower()` keeps the length and lowers each character in place (upper-case ASCII letters to lower case, all else unchanged) |
| Tables.AllSentinel | server.py:130 | the department sentinel holds for exactly the eight casings of "all" |
| Tables.ListEmployees | server.py:121-144 | the employee list holds at most 1000 employees, each stored and matching the department filter (exact, case-sensitive) and the search filter |
| Tables.ListEmployeesComplete | server.py:129-144 | when at most 1000 employees match, however large the directory, every matching employee is listed |
| Tables.ListEmployeesUnfiltered | server.py:129-144 | with no department filter (absent, empty or any casing of "all") and no search, a directory of at most 1000 employees is listed whole and in order |
| Tables.ListAttendance | server.py:168-171 | the attendance list holds at most 5000 stored records; with a non-empty `employee_id` all of them are that employee's, and when that employee has at most 5000 records every one of them is listed; without one it is the first 5000 records |
| Tables.DeletedEmployeeHasNoAttendance | server.py:153-171 | after the cascade, listing the deleted employee's attendance gives an empty list |
| Tables.CreatedEmployeeListed | server.py:115-144 | below the cap, an unfiltered employee list after a create is the previous directory plus the new employee |
| Dashboard.TodayRecords | server.py:180 | the dashboard reads at most 5000 records, all dated today and stored; when at most 5000 are dated today it reads every one of them |
| Dashboard.CountStatus | server.py:182-183 | a status count never exceeds the number of records counted |
| Dashboard.PresentAbsentBound | server.py:182-183 | present + absent is at most the number of today's records |
| Dashboard.Summarize | server.py:175-190 | counts are non-negative; present + absent is at most today's records (at most 5000); unmarked is never negative; when present + absent is at most the total, the four counts add up; otherwise unmarked is 0 |
| Dashboard.DistinctRecordsBound | server.py:179-189 | records of distinct employees, all in the directory, number at most the directory's size |
| Dashboard.UnmarkedExact | server.py:179-189 | with at most one record per employee for today and no dangling records, the saturation never applies and unmarked = total - present - absent |
| Dashboard.CountStatusAppend | server.py:182-183 | a count over an appended record grows by one exactly when its status is the one counted |
| Dashboard.MarkIsCountedAgain | server.py:163-183 | each mark for today (below the cap) adds one to the Present or Absent count, even for an employee already marked |
| Dashboard.TwoMarksSameDay | server.py:158-190 | one employee marked Present then Absent on the same day gives total 1, present 1, absent 1, unmarked 0 |
| Server.Hrms.constructor | server.py:36-37 | a new store has empty collections and satisfies the invariant |
| Server.Hrms.CreateEmployee | server.py:107-117 | 422 listing the failing fields for an invalid body; then 409 when the `employee_id` exists (checked before the email); then 409 when the email exists; otherwise exactly one document is appended and returned; attendance never changes; the invariant is kept |
| Server.Hrms.AppendEmployee | server.py:115-116 | `insert_one` of an employee with new keys appends it and keeps the invariant |
| Server.Hrms.GetEmployees | server.py:121-144 | the response is the employee list query over the current directory |
| Server.Hrms.DeleteEmployee | server.py:147-154 | 404 with both collections unchanged when no employee has the key; otherwise the first such employee and all of its attendance records are removed and everything else is kept in order; the invariant is kept |
| Server.Hrms.MarkAttendance | server.py:158-165 | 422 for an invalid body; 404 with the ledger unchanged when the employee does not exist; otherwise the ledger grows by exactly one record carrying the id, date and status, even for an already marked day; the directory never changes; the invariant is kept |
| Server.Hrms.AppendRecord | server.py:163-164 | `insert_one` of a record for an existing employee appends it and keeps the invariant |
| Server.Hrms.GetAttendance | server.py:168-171 | the response is the attendance list query over the current ledger: at most 5000 records, only and (below the cap) all of the given employee's when one is named |
| Server.Hrms.GetDashboard | server.py:175-190 | the response is the dashboard over the current collections, with unmarked never negative |
| Server.StoreWithOneEmployee | server.py:107-117 | creating a clean employee on an empty store leaves exactly that employee and no attendance |
| Server.MarkTwice | server.py:158-165 | two marks for the same employee and day append two records in order |
| Server.RepeatedMarkScenario | server.py:158-190 | after a Present mark and an Absent mark for the same employee and day, the ledger holds 2 records and the dashboard reads total 1, present 1, absent 1, unmarked 0 |

## Left out

- Application setup is not modelled: the FastAPI app, CORS and environment
  configuration, router registration, logging and shutdown
  (server.py:14-41, server.py:206-217). They are framework plumbing.
- The MongoDB client and `async`/`await` are not modelled. Each collection is
  a sequence field of `Server.Hrms`, and a query's natural order is taken to
  be insertion order. The `_id` that `insert_one` adds, which the list
  projections remove, is not modelled.
- Tables.ListEmployees: the `search` filter's `$regex` match (case-insensitive)
  belongs to the database's regular-expression engine. It is the parameter
  `regex(pattern, text)`, about which nothing is assumed.
- Tables.LowerAscii: `str.lower()` is modelled on ASCII letters only. No
  non-ASCII character lowers to 'a' or 'l', so the "all" sentinel test is
  unaffected.
- `uuid4()`, `datetime.now()` and the `%Y-%m-%d` formatting of today's date
  are not modelled. The handlers take `id`, `createdAt`, `markedAt` and
  `today` as parameters.
- The race between `find_one` and `insert_one` is not modelled, because the
  model runs one request at a time.
- The cascade's missing rollback is not modelled, because failures inside the
  store are not modelled.
- `/health` and `/` are not modelled, because they return constants
  (server.py:194-202).
- Pydantic is not modelled. The validators are plain functions applied to
  the raw body before the handler runs. A 422 answer carries the set of
  failing fields, not pydantic's error texts. Coercion of non-string JSON
  values is not modelled.
- Server.Hrms.CreateEmployee, Server.Hrms.DeleteEmployee and
  Server.Hrms.MarkAttendance state the invariant as `old(Valid()) ==> Valid()`.
  The source enforces uniqueness only through the checks in
  `create_employee`, so a store that already holds duplicates is not
  repaired.
