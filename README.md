# ClockMate API, modelled in Dafny

ClockMate is a PHP time-clock back end: one script, `index.php`, that
answers a JSON API over three MySQL tables. The tables are `employees`,
`pins` (one PIN hash per employee) and `clock_events`.

This project models that script:

- the CORS preflight short-cut;
- path normalisation and the route table, with its 404 and 405 answers;
- the payload checks (PIN formats, the clock-event check, the canonical timestamp regex);
- `convert_to_mysql_datetime`;
- every handler, as an operation on an in-memory copy of the three tables.

Files, one module each:

- `wrappers.dfy`: `Option`.
- `text.dfy`: decimal digits and numbers, zero padding, `trim`, `explode`, `implode`, `str_replace` on one character, and the byte-wise order MySQL uses on the date and datetime texts.
- `php_values.dfy`: decoded JSON values and the PHP operations applied to them (`empty`, string conversion, `ctype_digit`, loose `==`).
- `datetimes.dfy`: `date('Y-m-d H:i:s')`, the canonical regex, `convert_to_mysql_datetime` and `DATE()`.
- `seqs.dfy`: the storage engine's `WHERE`, `ORDER BY` and column projection.
- `validation.dfy`: the payload checks.
- `router.dfy`: path normalisation, the route table and dispatch.
- `tables.dfy`: rows, the database invariant, and each SQL statement as a function on the tables, with lemmas on what it selects or changes.
- `api.dfy`: the responses, the request environment, the PIN scan, and the class `Store`. `Store` holds the tables and the two AUTO_INCREMENT counters, and has one method per handler plus `Handle`, which routes a request.

What a request depends on besides the tables is passed in as an `Env`:

- PHP's clock and time zone, and MySQL's clock;
- what `new DateTime` parses a text to;
- `password_verify`, and the hash `password_hash` yields in this request;
- which statement of the handler raises a PDOException, if any.

The database is assumed to have the following schema, which is not part of this model:

- `pins.employee_id` and `clock_events.employee_id` are foreign keys to `employees.id`, with `ON DELETE CASCADE`;
- `event_type` holds `in` or `out`;
- MySQL runs in strict mode.

`Store.Valid()` is the invariant every handler keeps:

- employee ids and emails are unique, and so are event ids;
- every id lies below its counter;
- every PIN row and every event belongs to an existing employee.

## Model

| member | source | states |
|---|---|---|
| Text.TrimProperties | index.php:109 | `trim($uri, '/')` leaves no `/` at either end and leaves an already trimmed text as it is |
| Text.TrimRemovesOnly | index.php:109 | `trim` removes nothing but `/` from either end: the result is a slice of the text with only `/` before and after it |
| Text.JoinSplit | index.php:110-124 | `implode('/', explode('/', s))` gives back s |
| Text.SplitJoin | index.php:110-124 | exploding the implosion of pieces that hold no `/` gives back the pieces |
| Text.ReplaceCharRemoves | index.php:627 | after `str_replace(' ', '_', …)` no space is left, and every other character is where it was |
| PhpValues.LooseEqualsWordExactly | index.php:147 | a value is loosely equal to `"in"` (or `"out"`) exactly when it is that text or the boolean `true` |
| DateTimes.ConvertToMysqlDatetime | index.php:57-72 | a text matching the canonical regex is returned unchanged |
| DateTimes.ConvertedIsCanonical | index.php:57-72 | the converted text always matches the regex when the parsed date, or the current time used when parsing fails, is well formed with a four-digit year |
| DateTimes.FormatCanonical | index.php:59-70 | `date('Y-m-d H:i:s')` output matches the canonical regex exactly when the year has four digits |
| DateTimes.DatePartOfFormat | index.php:300-311 | `DATE()` of a printed time is its `Y-m-d` text, the form `CURDATE()` prints |
| Seqs.SortByCorrect | index.php:222 | `ORDER BY` yields an ordered sequence holding the same rows, each as many times |
| Seqs.SelectSorted | index.php:205-229 | `SELECT … WHERE keep ORDER BY key` is ordered, holds every accepted row, and holds nothing else |
| Seqs.SelectProject | index.php:246-252 | the columns selected from the sorted, filtered rows are one entry per accepted row, and each entry is the columns of an accepted row |
| Seqs.FilterPartition | index.php:286-298 | two disjoint conditions that together make up a third count as many rows between them as it does |
| Validation.PinFormat | index.php:438-440 | a PIN is accepted exactly when it is n characters long and all digits; its text is the value's PHP string; it raises for an array |
| Validation.PinFormatOfNumber | index.php:482-484 | a PIN sent as a JSON number of 4 or more digits is accepted exactly when it has n digits |
| Validation.ClockPayloadAsWrittenAcceptsTrue | index.php:147 | the check as written accepts `"type": true`, which is not an event type |
| Validation.EventTypeOf | index.php:147 | an event type is accepted exactly when it is the text `in` or `out` |
| Validation.ClockPayloadCorrected | index.php:147-149 | the strict check accepts what the written one accepts, except `true` |
| Router.StripBasePath | index.php:113-122 | the three guarded `array_shift`s compute the specification `StripFrom` |
| Router.StripFromSuffix | index.php:113-122 | normalisation removes a prefix of at most three segments and keeps the remaining segments in order |
| Router.StripFromNothing | index.php:113-122 | a path whose first segment is none of `clockmate`, `api`, `index.php` is left whole |
| Router.RouteBehindBasePath | index.php:108-124 | the route of `/clockmate/api/index.php/<route>` is `<route>` |
| Router.RouteWithoutBasePath | index.php:108-124 | a route with no base segment in front is its own route, with or without surrounding slashes |
| Router.IdDigitsAccepts | index.php:192 | `/^prefix(\d+)$/` captures the digits after the prefix, also when a final newline follows them |
| Router.IdDigits | index.php:192 | a capture is a non-empty run of digits that the route consists of after the prefix, optionally followed by one newline |
| Router.RoutesExclusive | index.php:140-605 | no route matches two entries of the table |
| Router.DispatchRoute | index.php:140-143 | a route matching an entry reaches that entry's handler under its method, and is answered 405 under any other |
| Router.CapturedId | index.php:326-330 | an id route's handler gets the number its digits denote |
| Router.DispatchNotFound | index.php:644-646 | 404 exactly when the route is neither a test route nor matched by an entry |
| Router.DispatchCall | index.php:137-642 | a handler runs only for a route and a method that some entry names |
| Router.EntryKinds | index.php:192-198 | an entry carries an id exactly when its endpoint takes one, and its method is GET exactly for the query endpoints |
| Router.DispatchId | index.php:192-198 | a dispatched handler gets an id exactly when it takes one, and query handlers run only under GET |
| Tables.FindEmployee | index.php:579-581 | the join finds an employee with the id exactly when one exists |
| Tables.ApproveEffect | index.php:333-340 | the approve statement changes a row exactly when an unapproved employee has the id, and afterwards exactly that row and the already approved rows are approved |
| Tables.PendingCount | index.php:333-336 | the approve statement's rowCount is non-zero exactly when an unapproved employee has the id |
| Tables.SetApprovedKeepsConsistent | index.php:402-420 | setting `is_approved` keeps the database invariant |
| Tables.RemoveEffect | index.php:354-361 | the reject statement's rowCount equals the approve statement's, it deletes exactly the unapproved rows with the id, and every other row stays |
| Tables.RemoveCount | index.php:354-357 | the reject statement removes as many rows as there are unapproved employees with the id |
| Tables.RemoveKeepsConsistent | index.php:354 | deleting the employee together with its PIN and its events (the cascade) keeps the invariant |
| Tables.SetPin | index.php:381 | the PIN update replaces only that employee's hash and adds no row |
| Tables.SetPinKeepsConsistent | index.php:381-388 | the PIN update keeps the invariant, and its rowCount is non-zero exactly when the table changed |
| Tables.SignupCannotLogIn | index.php:453-462 | adding the signed-up employee and its PIN leaves the login query of every role unchanged: the new account cannot log in before approval |
| Tables.SignupPending | index.php:453-465 | the signed-up employee is on the pending list, "awaiting admin approval" |
| Tables.SignupKeepsConsistent | index.php:443-464 | inserting an employee with a free email and its PIN under the counter's id keeps the invariant |
| Tables.EmailTakenMeansDuplicate | index.php:445-451 | inserting a taken email would break email uniqueness |
| Tables.AddEventKeepsConsistent | index.php:165-169 | an event for an existing employee keeps the invariant |
| Tables.Accounts | index.php:487-494 | the login query returns exactly the approved accounts of the role that have a PIN, each with its hash |
| Tables.LogRowsCorrect | index.php:205-229 | the logs are the employee's events in the date range, each once, by ascending timestamp |
| Tables.PendingRowsCorrect | index.php:246-252 | the pending list is exactly the unapproved staff (no admins), oldest first |
| Tables.StaffRows | index.php:266-272 | the staff list is exactly the employees of role `employee`, newest first |
| Tables.StatsBounds | index.php:286-312 | approved plus pending staff is all staff; today's active employees and today's clock-ins are at most today's events |
| Tables.ActiveIdsBound | index.php:300-305 | `COUNT(DISTINCT employee_id)` is at most the number of today's events |
| Tables.ActiveIdsAppend | index.php:300-305 | recording an event adds its employee to today's active employees exactly when the event falls on today, and otherwise leaves them as they were |
| Tables.ExportRows | index.php:578-584 | an export is newest first and holds exactly the joined rows |
| Tables.JoinedCount | index.php:579-581 | with the foreign key, the join gives one row per selected event |
| Tables.ExportEmptyIff | index.php:586-588 | with the foreign key, an export is empty exactly when no event is selected |
| Tables.JoinedNames | index.php:612-620 | every joined row of one employee's export carries that employee's name and email |
| Tables.ExportNames | index.php:626-627 | every row of one employee's export carries that employee's name |
| Api.IntColumnOfDigits | index.php:169 | a run of digits, with spaces around it and an optional `+`, is stored as the number the digits denote |
| Api.IntColumnNegative | index.php:169 | with a `-` only a zero is stored; any other negative number names no employee, so the insert raises |
| Api.IntColumnOfNat | index.php:169 | the text PHP prints for a JSON number is stored as that number |
| Api.IntColumnChars | index.php:169 | a text holding anything but spaces, signs and digits is not stored |
| Api.GivenTimestamp | index.php:154-161 | the current time when the value is `empty`; otherwise the value's PHP string, except that an array raises |
| Api.FirstVerified | index.php:498-503 | the scan returns the first account whose hash verifies the PIN, and nothing exactly when none does |
| Api.Store.constructor | index.php:100-104 | a store opened on consistent tables is valid |
| Api.Store.RecordClockEvent | index.php:144-188 | rejects an invalid payload with 400 and an array timestamp with a fatal error, both before touching the tables; 201 exactly when the payload is valid, the employee exists and neither statement fails, and then exactly one event is appended with the next id, the given employee and type, and the settled timestamp; any other answer to a valid payload is the 500 of the `catch`; when the insert did not happen nothing changed, and a failed read-back leaves the inserted row |
| Api.Store.InsertEvent | index.php:164-185 | the insert appends exactly the record it returns, under the next event id, and succeeds exactly when the employee exists and neither statement fails; on failure it answers 500; when only the read-back fails, the row with the next id is still appended |
| Api.Store.ClockLogs | index.php:198-234 | 500 on a storage failure; otherwise 200 with the logs query, one row per event of the employee in the range, in ascending order and with nothing else in it |
| Api.LogsWithoutRange | index.php:198-225 | without both `start` and `end` the logs are every event of the employee, each once, in ascending timestamp order |
| Api.Store.PendingApprovals | index.php:245-256 | 500 on failure; otherwise 200 with the pending query, one row per unapproved staff member, oldest first, with nothing else in it |
| Api.Store.AllEmployees | index.php:265-276 | 500 on failure; otherwise 200 with the staff query, one row per staff member, newest first, with nothing else in it |
| Api.Store.DashboardStats | index.php:285-322 | 500 when any of the four statements fails; otherwise 200 with counts that obey the bounds and equalities of the stats lemmas |
| Api.Store.Approve | index.php:330-343 | approves the id; 200 exactly when an unapproved row had it, and 404 otherwise; pins, events and counters unchanged |
| Api.Store.Reject | index.php:351-364 | deletes an unapproved employee with the id, with its PIN and events, and answers 200; otherwise 404 and nothing changes |
| Api.Store.ResetPin | index.php:372-391 | 400 on an empty or malformed PIN and a fatal error on an array, with nothing changed; otherwise stores the hash for that employee only, answering 200 when a row changed and 404 otherwise |
| Api.Store.SetActive | index.php:395-424 | sets `is_approved` for the id and always reports success, even for an unknown id; a 500 leaves the store unchanged |
| Api.Store.Signup | index.php:432-469 | 400 on a missing field or a bad PIN; for valid fields, a 500 when the lookup fails and a 409 exactly when the email is taken, both with nothing changed; for a free email, any answer but 201 is the 500 `Failed to create account: ` of the `catch`; 201 exactly when the fields and PIN are valid, the email is free and no statement fails, and then exactly one employee and its PIN are added under the next id; on any other answer both tables are unchanged, and the id counter has either stayed or moved by one after a failed PIN insert or commit |
| Api.Store.Register | index.php:443-469 | inside the transaction: 409 exactly for a taken email with nothing changed; for a free email, any answer but 201 is the 500 `Failed to create account: `; on success exactly one employee and its PIN hash are added under the next id; on a failure both tables are as before, though the id counter may have moved |
| Api.Store.Authenticate | index.php:476-518 | 400 on a missing or malformed PIN; on success the user returned is the first account of the login query whose hash verifies the PIN, an approved account of the role, without the hash; 401 exactly when no such account verifies |
| Api.Store.Onboard | index.php:428-519 | a signup, the approval of the new id, and a login with the same PIN all succeed one after another |
| Api.Store.ExportAll | index.php:577-602 | 500 on failure; 404 exactly when there are no events; otherwise a CSV with the header and the joined rows, named by the current time |
| Api.Store.ExportEmployee | index.php:609-641 | 500 on failure; 404 exactly when the employee has no events; otherwise a CSV of that employee's rows, named after that employee with spaces turned into underscores |
| Api.Store.Handle | index.php:76-135 | OPTIONS answers before anything else; a failed connection gives 500 before routing; every method on the test routes gets the health answer (message, version, current time and zone); 404 and 405 leave the tables unchanged, and so do query endpoints |
| Api.Store.Serve | index.php:137-642 | runs the handler the route names; query handlers leave the tables unchanged (`Api.Store.Query`, the read-only half, has no `modifies` clause) |
| Api.Store.Command | index.php:144-519 | the state-changing handlers keep the database invariant |

## Left out

- Headers, `http_response_code`, `json_encode` and `exit` are not modelled. A response is the datatype `Response`, and the JSON envelope `{"success": …}` is implied by its constructor.
- `json_decode` is taken as already done, and the body arrives as a `Json` value. In this value, floats are not representable, and nor are integers outside PHP's 64-bit range.
- `parse_url` is taken as already done, so the path arrives without a query string. The query values `start` and `end` arrive as optional texts; array-valued query parameters are not modelled.
- The PDO connection and SQL engine are replaced by the tables in `Store`. A PDOException is modelled as a statement index in `Storage`. Concurrency and transaction isolation between requests are not modelled.
- `password_hash` and `password_verify` are parameters. One `hash` function per request stands for `password_hash`'s random salt.
- `new DateTime` on a non-canonical text is an oracle `parse`. PHP's clock, MySQL's `NOW()` and `CURDATE()`, and the time zone are fields of `Env`.
- MySQL's validation and normalisation of a stored `DATETIME` are not modelled. For example, a canonical but impossible date such as month 13 is stored as the text given. `DATE()` is the first ten characters, and date comparison is the byte-wise order of the texts.
- The email comparison is exact. MySQL's default collation is case-insensitive, and this model does not capture that.
- The AUTO_INCREMENT counter for events advances only on a successful insert. The counter for employees also advances when a signup fails after its employee insert. MySQL can use up counter values in other failed inserts too, which this model does not capture.
- Api.IntColumnOfDigits: MySQL also reads a fraction or an exponent in an integer text (`"7.4"`, `"7e0"`) and rounds it. Here such a text raises. A bare sign, and characters after the digits other than spaces, raise in both.
- Api.Store.Authenticate: the login query has no `ORDER BY`. The model fixes MySQL's scan order as the order of the `employees` table. "First" in its contract means first in that order.
- The range of MySQL `INT` columns is not modelled: an id is an unbounded natural number.
- diagnostic.php and sample-api.php are not part of this model. They are an HTML report and a constant echo.
- `fputcsv` quoting is not modelled. A CSV is its file name, header row and rows.
- Api.Store.Handle: for a routed call it states only that query endpoints leave the tables unchanged. What each handler does is stated by that handler's own method, which `Serve` calls.
- Api.Store.Serve: states only the invariant and that query endpoints change nothing, because it is the dispatch table into the handler methods.
- Api.Store.Command: states only the invariant, because it is the dispatch table into the state-changing handler methods, whose own contracts say what each does.
- Api.Store.RecordClockEvent: uses the corrected event-type check (see Findings). With its strict `in` or `out` value the insert into `event_type` cannot fail for the type. The written code would send the text `"1"` for `true`.

## Findings

| source | as written | input that shows it | evidently intended | confidence | as-written member | corrected member |
|---|---|---|---|---|---|---|
| index.php:147 | `in_array($data['type'], ['in', 'out'])` compares loosely, and in PHP 8 `true == "in"` holds | body `{"employeeId": 7, "type": true}` passes the check, and `true` is then bound as `"1"` to `event_type` | only the texts `in` and `out` pass (`in_array(…, true)`) | not executed | Validation.ClockPayloadAsWrittenAcceptsTrue | Validation.ClockPayloadCorrected |
