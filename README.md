# Expense tracker storage core, modelled in Dafny

The expense tracker (`app.py`) keeps two SQLite tables. `users` holds an id, a unique username
and a SHA-256 password digest. `transactions` holds an id, an owner `user_id`, a date string,
a type, a category, a description and an amount. Underneath the web UI, the app does seven
things with these tables:

- it registers a user, relying on the `UNIQUE` constraint;
- it looks a user up by username and password digest (login);
- it inserts a transaction, storing the date as `str(date)`;
- it lists one user's transactions, optionally filtered by month and year;
- at startup, it adds the `user_id` column (default 0) to a table created before the column existed;
- at login, it gives every transaction whose `user_id` is 0 to the logged-in user;
- it sums the listed amounts of type `Income` and of type `Expense`.

The model keeps the database file as the state of one class, `Store.Database`. Its fields are
both tables as sequences of records, the two AUTOINCREMENT counters (`sqlite_sequence`) and a
flag saying whether the `user_id` column exists. Each statement the app runs is a method of
that class. Every method is specified by a value-level function in `Tables`, `Dates` or `Totals`.
The properties are proved about those functions.

- `dates.dfy` (module `Dates`): digit strings, Python's `str(n)` and `f"{n:02d}"`, and
  RFC 3339 (section 5.6) `full-date` strings. It also has Python's `str(date)` and proofs that
  the string filters of the SQL query mean "the month is m" and "the year is y".
- `tables.dfy` (module `Tables`): the records; the credential lookup; the WHERE clause as
  a list of conditions, next to a calendar-level description of what it selects; the orphan
  `UPDATE`; the `ADD COLUMN` migration.
- `totals.dfy` (module `Totals`): the income and expense totals.
- `store.dfy` (module `Store`): the `Database` class and two client methods.

Some modelling choices:

- `hash_password` is a function-valued constant of the database, `hash`, and is left
  uninterpreted. Every proof holds for any hash function.
- The `type` column is the field `kind`, because `type` is a Dafny keyword. It is a string,
  since the store accepts any type text.
- Amounts are exact `real`s.
- `user_id` is an `Option<int>`. It is `None` on every row while the column does not exist yet.
- The ids that AUTOINCREMENT assigns are `counter + 1`. The table invariant states that ids
  increase and never exceed the counter.
- The SQL leaves result order unspecified. The model returns rows in table order. The
  order-independent statements about listings are `SelectedMembership`, `SelectedIsSubMultiset`,
  `ClaimOrphansJoinOwnerListing` and `TotalPermutation`. Some statements are sequence equalities
  and so fix table order: the `GetTransactions` postcondition, `QueryMatchesSelected`,
  `SelectedAppend`, `ClaimOrphansKeepsOtherListings` and `AddedTransactionTotal`. Each of these
  compares listings taken in the same order.
- The year filter compares `strftime('%Y', date)` with `str(year)`, which is not zero-padded.
  So a year below 1000 never matches. The model keeps this behaviour and states it in
  `YearFilterExact`. The app only offers the years 2022 to the current year, so it does not reach
  this case.
- `app.py` computes only two summaries of a listing: the income total and the expense total
  (lines 179-180). The model has exactly these.

## Model

| member | source | states |
|---|---|---|
| `Store.Database.Open` | app.py:10-33 | the tables are opened as the file left them; the table invariant (unique usernames, increasing ids bounded by the counters, a `user_id` value on each row exactly when the column exists, well-formed dates) holds |
| `Store.Database.MigrateUserIdColumn` | app.py:36-40 | afterwards the column exists; if it was missing, every row gets `user_id` 0 and nothing else changes; if it was present, nothing changes at all |
| `Store.MigrateTwice` | app.py:36-40 | running the upgrade twice leaves the same tables as running it once |
| `Tables.AddUserIdColumnEffect` | app.py:39 | `ADD COLUMN ... DEFAULT 0` keeps the row count and every row, except that each row's `user_id` is now 0 |
| `Store.Database.Register` | app.py:52-59 | it returns false, and nothing changes, exactly when the username is taken; otherwise it returns true and appends exactly one user with the next id, that username and `hash(password)`; usernames stay pairwise distinct |
| `Store.RegisterTwice` | app.py:52-59 | registering a new name twice: the first call succeeds, the second fails, and the users table grows by exactly one |
| `Tables.FindCredentials` | app.py:61-64 | the lookup returns a user exactly when some user has that username and that stored digest; the user it returns is in the table and carries both values |
| `Tables.CredentialsDetermineUser` | app.py:61-64 | with unique usernames, any user matching both values is the one the lookup returns |
| `Store.Database.Login` | app.py:61-64 | login returns a record iff a user has the username and the digest `hash(password)`; the record carries both values; a successful login returns the only user with that username |
| `Tables.IdOf` | app.py:134-135 | for a username that exists, the lookup returns the id of a user with that name |
| `Store.Database.UserIdOf` | app.py:134-135 | the returned id is the id of every user with that username, and is at least 1 |
| `Store.Database.AddTransaction` | app.py:69-74 | exactly one row is appended, with the next id, the given owner, `str(date)`, type, category, description and amount; existing rows and the users table are unchanged |
| `Dates.IsoFormatRoundTrip` | app.py:73 | `str(date)` of a valid date is an RFC 3339 `full-date` whose year, month and day read back as the date's own fields |
| `Dates.ParseDateRoundTrip` | app.py:73 | every `full-date` with a year from 1 on is `str(date)` of exactly the date it spells |
| `Store.Database.GetTransactions` | app.py:76-86 | it reads and changes nothing; the result holds the selected columns of exactly the table rows the calendar-level description selects, in table order |
| `Tables.QueryMatchesSelected` | app.py:77-85 | the WHERE clause (owner, then `f"{month:02d}"` and `str(year)` when truthy) selects the same rows as "owned by the user, in that month, in that year" |
| `Tables.SelectedMembership` | app.py:77-85 | a row is listed iff it is in the table, its `user_id` is the argument, its month is `month` when `month` is truthy, and its year is `year` (a four-digit year) when `year` is truthy; with neither filter, all of the user's rows are listed and no other user's |
| `Tables.SelectedIsSubMultiset` | app.py:85-86 | the listing never contains a row more often than the table does |
| `Dates.MonthFilterExact` | app.py:79-81 | for a date string, `strftime('%m', date) = f"{m:02d}"` holds iff the date's month is m, for every integer m |
| `Dates.YearFilterExact` | app.py:82-84 | for a date string, `strftime('%Y', date) = str(y)` holds iff the date's year is y and y is at least 1000 |
| `Dates.NatStringValue` | app.py:84 | the digits that `str(n)` writes read back as n |
| `Store.Database.ReassignOrphans` | app.py:138 | the transactions table becomes the orphan claim of the old one; the users table, the counters and the column are unchanged, and the invariant is kept |
| `Tables.ClaimOrphansEffect` | app.py:138 | every row with `user_id` 0 gets the new owner; every other row is unchanged; the row count is unchanged |
| `Tables.ClaimOrphansIdempotent` | app.py:138 | running the UPDATE a second time changes nothing, for every owner |
| `Tables.ClaimOrphansLeavesNoOrphan` | app.py:138 | after claiming with a non-zero owner, no row has `user_id` 0 |
| `Tables.ClaimOrphansKeepsOtherListings` | app.py:138 | every listing of another non-zero user is the same before and after the UPDATE |
| `Tables.ClaimOrphansJoinOwnerListing` | app.py:138 | afterwards, the owner's unfiltered listing holds exactly its earlier rows and the former orphans, now under its id |
| `Dates.IsoFormat` | app.py:73 | `str(date_val)` of a Python date: the year padded to four digits, the month and the day padded to two, joined by `-` (its properties are stated by `IsoFormatRoundTrip` and `ParseDateRoundTrip`) |
| `Dates.ZeroPad` | app.py:81 | `f"{int(month):0{w}d}"`: the sign, zeros up to width w, then the digits (its properties are stated by `ZeroPadDigits` and `MonthFilterExact`) |
| `Dates.ZeroPadDigits` | app.py:81 | for a non-negative n, the padded text is a digit string that denotes n, and it is exactly w long when n has at most w digits |
| `Dates.Decimal` | app.py:84 | `str(year)` is never empty, and it starts with `-` exactly when the number is negative |
| `Tables.QueryConditions` | app.py:77-84 | the WHERE clause is `user_id=?`, then the month condition with `f"{month:02d}"` when `month` is truthy, then the year condition with `str(year)` when `year` is truthy |
| `Tables.Holds` | app.py:77-84 | one condition on one row: the owner equals the argument, or the month or year characters of the date equal the parameter text |
| `Tables.Where` | app.py:85-86 | every returned row is a table row that satisfies all conditions, and there are at most as many as the table has |
| `Tables.ClaimOrphans` | app.py:138 | the UPDATE keeps the row count (the full effect is stated by `ClaimOrphansEffect`) |
| `Tables.AddUserIdColumn` | app.py:39 | the ALTER keeps the row count (the full effect is stated by `AddUserIdColumnEffect`) |
| `Totals.Total` | app.py:179-180 | the sum of `Amount` over the rows whose `Type` is the given text (its properties are stated by the `Total*` lemmas below) |
| `Totals.TotalIncome` | app.py:179 | `total_income` is the Total of type `Income` |
| `Totals.TotalExpense` | app.py:180 | `total_expense` is the Total of type `Expense` |
| `Totals.TotalPermutation` | app.py:179-180 | the income and expense totals do not depend on the order of the rows |
| `Totals.TotalAppend` | app.py:179-180 | the total over two row lists, one after the other, is the sum of their totals |
| `Totals.TotalWithoutKind` | app.py:177-180 | the total of a type that no row has is 0, and so both totals of an empty result are 0 |
| `Totals.TotalNonNegative` | app.py:179-180 | if amounts are non-negative, as the form's minimum of 0 makes them, both totals are non-negative |
| `Totals.IncomeAndExpenseSplitAmounts` | app.py:179-180 | when every row is Income or Expense, total income plus total expense is the sum of all amounts |
| `Totals.AddedTransactionTotal` | app.py:69-74 | adding a transaction raises its owner's unfiltered total of its own type by its amount, and leaves the other type's total unchanged |

## Left out

- The Streamlit UI: widgets, tabs, messages, metrics, session state and the logout button
  (app.py:95-188, except the statements modelled above). The month and year lists of the
  filter widgets are not modelled: `GetTransactions` accepts any optional integers.
- The SQLite connection, the cursor, `commit` and the `PRAGMA table_info` introspection. The
  tables and the column flag are fields of the model. Each statement takes effect at once and
  as a whole.
- SHA-256 and hex encoding: `hash` is an uninterpreted function.
- The DataFrame built by `get_transactions`, and its `pd.to_datetime`. The model returns the
  sequence of selected rows.
- Floating-point: `REAL` amounts and pandas `.sum()` rounding. Amounts are exact reals.
- The order of SQL results, which is unspecified. The model picks table order; see above.
- SQLite's `strftime` on strings that are not dates in the `YYYY-MM-DD` form. The table invariant
  keeps every stored date an RFC 3339 `full-date`, so such strings never reach the listing. The
  model does not say what SQLite would do with them. `Tables.Holds` checks only the digit shape of
  a date string.
- `NULL` values: `add_transaction` with `user_id` None, and NULL usernames or passwords, which
  would break `NOT NULL`. Every caller passes real values.
- The AUTOINCREMENT limit (`SQLITE_FULL` after id 2^63-1): the counters are unbounded.
- Store.Database.AddTransaction: it requires the `user_id` column, which the startup upgrade
  at app.py:36-40 always adds first. The SQL error the INSERT would raise without the column is
  not modelled. It also requires a valid calendar date, as a Python `date` always is.
- Store.Database.GetTransactions: it requires the `user_id` column, for the same reason. The SQL
  error the SELECT would raise without the column is not modelled.
- Store.Database.ReassignOrphans: it requires the `user_id` column, for the same reason. The SQL
  error the UPDATE would raise without the column is not modelled.
- Store.Database.UserIdOf: it requires the username to exist, as the session's logged-in user
  always does. Otherwise, `fetchone()[0]` would raise on `None`.
- Concurrency, several processes sharing the file, and crashes between statements.
