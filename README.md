# Work-hours backend: a Dafny model of its request handlers

The service logs employees' daily working times. Clients post a day's
start, end and break for an employee, found by name. An administrator who
has logged in with a shared password can list every entry. This project
models the logic inside the three handlers of `server.js`:

- **Time arithmetic** (module `TimeArithmetic`, `time_arithmetic.dfy`).
  `ParseTime` follows `parseTime`: it splits on `':'` (`Split`, written
  like JavaScript's `String.prototype.split`), reads the first two pieces
  with `Number` (`JsNumber`) and returns `hours * 60 + minutes`.
  `BreakMinutes` follows `parseInt(breakTime, 10) || 0` (`ParseInt`,
  `TrimStart`, `DigitPrefix`). `NetHours` is
  `(endMinutes - startMinutes - breakMinutes) / 60` as an exact real number,
  with no clamping. JavaScript's `NaN` is `None` throughout.
- **Tables** (module `Tables`, `tables.dfy`). `employees` and `work_hours`
  are sequences of rows. `TablesValid` states the schema's constraints:
  primary key, UNIQUE name, the foreign key, and SERIAL ids.
  `FindEmployee` is the lookup by name. `NewEntry` is the row the INSERT
  writes.
- **Listing** (module `Listing`, `listing.dfy`). The admin query is a join
  (`JoinEmployees`) followed by an ordering on the date (`SortNewestFirst`,
  dates compared by `Earlier`). `ListWorkHours` is the whole endpoint.
- **Handlers** (module `Server`, `server.dfy`). The class `WorkHoursServer`
  holds the two tables, the next SERIAL value, the configured admin
  password and one session's `isAdmin` flag. Its methods `LogHours`,
  `AdminLogin` and `AdminWorkHours` are the three endpoints. Each method
  states the status it returns and the whole new state.
- **Scenarios** (module `Scenarios`, `scenarios.dfy`). These are client
  methods proved from the handlers' contracts alone. In one, Alice logs
  09:00–17:00 with a 30-minute break and gets one entry of 7.5 hours. In
  another, requests without a date or for an unknown name get a 400 and
  write nothing. In a third, the listing is refused (403) before login and
  after a wrong password, and is granted after the right one.

One consequence of the code as written is proved, not changed. The
password check is `password === process.env.ADMIN_PASSWORD`. When that
variable is unset, a login request with no `password` field compares
`undefined === undefined` and succeeds. `AdminLogin` models this: both
values are `Option<string>`. `Scenarios.UnsetPasswordScenario` shows the
case.

Two behaviours of the code are easy to miss; the model follows the code:
- An empty string counts as a missing required field (the test is
  `!field`), not only an absent one.
- The INSERT is sent the raw submitted `breakTime`, not the parsed
  minutes. The `break_time` column is DOUBLE PRECISION, so PostgreSQL
  converts that text when it stores it. When no break is sent, the column
  gets NULL, not its default 0. Only the net-hours computation treats a
  missing break as 0.

## Model

| member | source | states |
|---|---|---|
| TimeArithmetic.Split | server.js:83 | splitting always yields at least one piece, even for the empty string |
| TimeArithmetic.SplitJoin | server.js:83 | the pieces contain no separator, and joining them with the separator gives back the input |
| TimeArithmetic.SplitTwo | server.js:83 | two separator-free strings joined by one separator split into exactly those two pieces |
| TimeArithmetic.JsNumber | server.js:84 | definition, with no contract of its own: `Number` of a piece, read as an unsigned decimal digit string (the empty string is 0), NaN otherwise |
| TimeArithmetic.ParseTime | server.js:82-85 | definition, with no contract of its own: split on `:`, NaN with fewer than two pieces, otherwise `Number(hours) * 60 + Number(minutes)`; its properties are the lemma rows below |
| TimeArithmetic.ParseTimeWellFormed | server.js:82-85 | for digit strings `hh`, `mm`, parsing `hh:mm` gives `hh * 60 + mm` |
| TimeArithmetic.ParseTimeIgnoresSeconds | server.js:82-85 | `hh:mm:ss` parses to the same minutes as `hh:mm`: only the first two pieces are read |
| TimeArithmetic.ParseTimeWithoutColon | server.js:83-84 | a string with no `:` has no minutes piece and parses to NaN |
| TimeArithmetic.ParseFormatTime | server.js:82-85 | round trip: the zero-padded `HH:MM` text of a clock time parses to its minutes since midnight, which lie in 0..1439 |
| TimeArithmetic.TrimStart | server.js:91 | the first step of `parseInt`: the result is a suffix of the input and does not start with space, tab, line feed or carriage return |
| TimeArithmetic.DigitPrefix | server.js:91 | the digits `parseInt` reads: a prefix of the input, made only of digits, and followed by no further digit |
| TimeArithmetic.ParseInt | server.js:91 | definition, with no contract of its own: `parseInt(text, 10)`, which skips leading space, tab, line feed and carriage return, reads an optional sign and the longest digit prefix, and is NaN when there is no digit |
| TimeArithmetic.BreakMinutes | server.js:91 | definition, with no contract of its own: `parseInt(breakTime, 10) \|\| 0`, so NaN counts as 0; its properties are the `Break…` rows below |
| TimeArithmetic.BreakAbsent | server.js:91 | an absent break reaches `parseInt` as `undefined`, which it reads as the text "undefined"; that is not a number, so the break is 0 minutes, the value the model gives an absent break |
| TimeArithmetic.BreakDigits | server.js:91 | a digit string, possibly followed by text that does not start with a digit, counts as its decimal value |
| TimeArithmetic.BreakNegative | server.js:91 | a break written `-d` counts as minus the value of `d`, which lengthens the net time |
| TimeArithmetic.BreakNonNumeric | server.js:91 | text that does not start, after white space, with a digit, or with a sign followed by a digit, counts as 0 minutes |
| TimeArithmetic.MinutesToHours | server.js:92 | the hours times 60 are exactly the minutes |
| TimeArithmetic.NetHours | server.js:88-92 | definition, with no contract of its own: NaN when either time is NaN, otherwise `(end − start − break) / 60`; its properties are the rows below |
| TimeArithmetic.NetHoursOfClockTimes | server.js:82-92 | for any two clock times in the `HH:MM` form a time input sends and any break, the net hours are a number, and 60 times them is exactly end minutes − start minutes − break minutes, with no clamping |
| TimeArithmetic.NetHoursNaN | server.js:83-92 | when the start or the end text has no `:`, the net hours are NaN whatever the break |
| TimeArithmetic.NetHoursNonNegative | server.js:88-92 | when the end is not before the start and 0 ≤ break ≤ elapsed minutes, the net hours are a number and not negative |
| TimeArithmetic.NetHoursFullDay | server.js:88-92 | 09:00 to 17:00 with break "30" gives 7.5 hours |
| TimeArithmetic.NetHoursEndBeforeStart | server.js:88-92 | 17:00 to 09:00 with no break gives −8 hours: an end before the start is accepted |
| Tables.Truthy | server.js:70 | definition, with no contract of its own: a field passes `!field` exactly when it is present and not the empty string |
| Tables.HasRequiredFields | server.js:70 | definition, with no contract of its own: employee name, date, start and end time all pass the `!field` test; the break and the comment are optional |
| Tables.Status.Code | server.js:70-115 | definition, with no contract of its own: 200 for hours logged and for an admin login, 400 for missing fields and for an unknown employee, 401 for a wrong password |
| Tables.Status.Message | server.js:70-115 | definition, with no contract of its own: the JSON `message` or `error` text each outcome sends, in the service's German wording |
| Tables.TablesValid | server.js:31-56 | definition, with no contract of its own: the primary keys and the UNIQUE name of `employees`, the foreign key of `work_hours.employee_id`, and SERIAL ids below the next value and increasing in storage order |
| Tables.FindEmployee | server.js:75-79 | the lookup finds nothing exactly when no employee has that name, and otherwise returns the id of an employee with that name |
| Tables.FindEmployeeUnique | server.js:75-79 | with unique names the lookup returns the id of the one employee with that name |
| Tables.NameOf | server.js:128 | the join key finds nothing exactly when no employee has the id, and otherwise the name of an employee with that id |
| Tables.NameOfUnique | server.js:128 | with unique ids the join pairs an id with the name of the one employee that has it |
| Tables.NewEntry | server.js:95-98 | definition, with no contract of its own: the row the INSERT writes, with the next id, the employee's id, the submitted date, times, break and comment as sent, and the computed net hours |
| Tables.AppendKeepsTablesValid | server.js:95-98 | appending the inserted row, with the next SERIAL id and an existing employee's id, keeps the key, uniqueness and foreign-key constraints |
| Listing.ListResponse.Code | server.js:120-131 | definition, with no contract of its own: 403 for a refused listing, 200 for rows |
| Listing.ListResponse.Message | server.js:121 | definition, with no contract of its own: a refused listing sends the error text "Zugriff verweigert." |
| Listing.NewestFirst | server.js:129 | definition, with no contract of its own: `ORDER BY wh.date DESC`, so no row has an earlier date than a row after it |
| Listing.Listed | server.js:126 | definition, with no contract of its own: the SELECT column list, the entry's id, date, times, break, net hours and comment with the employee's name in place of the employee id |
| Listing.Earlier | server.js:129 | definition, with no contract of its own: one date text sorts before another when it is a proper prefix of it or has a smaller character at the first difference |
| Listing.EarlierIrreflexive | server.js:129 | no date is earlier than itself |
| Listing.EarlierTotal | server.js:129 | any two dates are equal, or one of them is earlier than the other |
| Listing.EarlierTransitive | server.js:129 | the date order is transitive |
| Listing.NotEarlierTransitive | server.js:129 | "not earlier than" is transitive, so a descending order is well defined |
| Listing.JoinEmployees | server.js:126-128 | the join has no more rows than there are entries; when every entry's employee exists it has one row per entry, in order, labelled with that employee's name |
| Listing.InsertNewest | server.js:129 | inserting a row makes the sequence one longer |
| Listing.SortNewestFirst | server.js:129 | the ordering has as many rows as its input; sortedness and permutation are in `SortNewestFirstCorrect` |
| Listing.InsertNewestPermutes | server.js:129 | inserting a row adds exactly that row |
| Listing.InsertNewestSorted | server.js:129 | inserting into a newest-first sequence keeps it newest first |
| Listing.SortNewestFirstCorrect | server.js:129 | the ordering is a permutation of its input and leaves no row with an earlier date before a later one |
| Listing.ListWorkHours | server.js:119-131 | a 403 exactly for an anonymous session; otherwise the rows are the joined entries, rearranged, newest date first |
| Listing.ListingCoversEveryEntry | server.js:125-131 | with consistent tables the listing has one row per stored entry, and every entry appears in it with its own employee's name |
| Server.WorkHoursServer.constructor | server.js:16-21 | a new session over consistent tables starts anonymous |
| Server.WorkHoursServer.LogHours | server.js:67-100 | a missing or empty required field is a 400 and changes nothing; an unknown name is a 400 and changes nothing; otherwise one row is appended with the next id, the matching employee's id, the submitted fields and the computed net hours; earlier rows, the employees and the session flag are unchanged, and the tables stay consistent |
| Server.WorkHoursServer.AdminLogin | server.js:108-116 | the flag becomes true exactly when the submitted password equals the configured one (200), otherwise it stays as it was (401); nothing clears it and the tables are unchanged |
| Server.WorkHoursServer.AdminWorkHours | server.js:119-131 | a 403 exactly when the session is anonymous; otherwise one row per stored entry, newest date first, a permutation of the joined entries |

## Left out

- Express setup, body parsing, static files and `GET /` (server.js:1-21, 61-64, 139-141): framework code with no logic of its own.
- The connection pool, its TLS setting and the `CREATE TABLE` statements (server.js:23-59). The tables exist only as the shape of the rows and the constraints in `TablesValid`.
- The 500 paths and the console logging (server.js:101-104, 132-135). These include the database refusing a stored value it cannot convert, such as a date that is not a date or a break like `"abc"`. The model stores the submitted text unchanged.
- Database conversion of the stored values: `date` is a DATE, `start_time` and `end_time` are TIME, and `break_time` and `net_hours` are DOUBLE PRECISION columns. PostgreSQL converts the submitted text on insert and returns its own rendering of each value when listing. The model stores and lists the submitted text and the exact net hours.
- Non-string JSON values in the request body (numbers, booleans, objects), with their JavaScript truthiness and the TypeError `split` raises on them. Every field is an optional string; a numeric break is its decimal text.
- TimeArithmetic.JsNumber: reads only unsigned digit strings, including the empty one, which is 0. The other forms `Number` accepts are NaN in the model: surrounding white space, a sign, a decimal point, an exponent, `Infinity`, and the `0x`, `0o` and `0b` prefixes (`Number("0b1")` is 1).
- TimeArithmetic.ParseInt and TrimStart: skip only space, tab, line feed and carriage return. They do not skip the other white space `parseInt` skips: vertical tab, form feed, no-break space, the byte-order mark, U+2028, U+2029 and the other space separators.
- Floating-point rounding: all the arithmetic is exact, with unbounded integers and net hours as exact reals. JavaScript rounds `/ 60`, and `Number` and `parseInt` round digit strings past 2^53 (`Number("9007199254740993")` is 9007199254740992).
- The five default weekly-hour columns of `employees` (server.js:35-39): no handler reads them.
- Employee creation: there is no endpoint for it. The employees table is given, and consistent.
- Sessions per client, the cookie, session storage and expiry: one session's flag is modelled.
- Concurrent requests, including the gap between the employee lookup and the insert.
- SERIAL ids used up by failed inserts: the model advances the id only when a row is written.
- Listing.SortNewestFirst: the order among entries with equal dates is unspecified in SQL. The model keeps storage order, and only sortedness and permutation are claimed.
- Listing.Earlier: compares the stored date text character by character. For `YYYY-MM-DD` text this is calendar order; the other date spellings PostgreSQL accepts are not modelled.
