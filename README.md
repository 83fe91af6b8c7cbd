# Inventory tracker: a Dafny model

This project models the core of a small equipment-inventory tracker. The tracker has four parts:

- a Flask web application (`app.py`) over one SQLite table of items, with search, add, edit, view, delete and a QR-code download;
- a seeding script (`setup_db.py`) that loads a spreadsheet export into that table;
- an admin script that creates a login (`create_user.py`);
- an admin script that deletes a login (`delete_user.py`).

Each table is modelled as the sequence of its rows in storage order. A class owns that sequence, and the statements that change it are methods that reassign it:

- `Inventory.ItemTable` holds the `items` table;
- `Users.UserTable` holds the `users` table.

A query is a function of the sequence. A request handler or script step is a function of its inputs and the rows, or a method on the table. The request, the form, the typed input and the file contents become parameters.

The files:

- `wrappers.dfy`: `Option`.
- `sequences.dfy`: subsequences and duplicate-free sequences.
- `text.dfy`: the Python string operations the code relies on. These are `str.strip()` with Python's whitespace set, lower-casing, one-character replace and substring tests.
- `inventory.dfy`: the `items` table and the handlers of `app.py`.
- `seeding.dfy`: `init_db`. The CSV becomes a column-major data frame, as pandas keeps it. The model then follows the script's steps: rename, drop leftovers, insert ids, backfill missing columns, replace the table.
- `users.dfy`: the `users` table, with its unique usernames.
- `user_creation.dfy`: `create_user`.
- `user_deletion.dfy`: `delete_user`, plus the create/duplicate/delete/create scenario for `alice`.

Where the code falls short of behaviour the system is meant to have, the model follows the code:

- **Deleted ids can come back.** An item id is meant never to be reused after deletion. `add_item` assigns `MAX(id) + 1`, so after the item with the largest id `m` is deleted, the next add receives `m` or a smaller id, never one above every id handed out so far. It receives exactly `m` again whenever some item has id `m - 1`. `Inventory.NextIdAfterDeletingLargest` proves this for every table.
- **No administrator is created.** Seeding is meant to also create a default administrator login. `setup_db.py` only writes the `items` table.

## Model

| member | source | states |
|---|---|---|
| Text.IsSpace | setup_db.py:28 | Python's `str.isspace` set, which `.strip()` removes: space, tab, newline and carriage return are whitespace; no ASCII letter or digit, `_` or `-` is |
| Text.Strip | setup_db.py:28 | `str.strip()`: the result has no Python whitespace at either end, is no longer than the input, and is empty exactly when the input is all whitespace |
| Text.StripIsTrim | app.py:160 | stripping removes only whitespace: the result is a slice of the input and everything cut from either end is whitespace |
| Text.StripIsSubsequence | app.py:160 | the stripped string is a subsequence of the original |
| Text.StripFixpoint | create_user.py:20 | a string with no whitespace at either end strips to itself (so stripping twice is stripping once) |
| Text.Lower | setup_db.py:28 | lower-casing keeps the length and maps each character through the ASCII case fold |
| Text.IsSubstring | setup_db.py:33 | Python's `t in s`: every prefix of `s` is found in it; a string found in `s` is no longer than `s` and uses only characters of `s` |
| Text.ReplaceChar | setup_db.py:29-30 | `str.replace(a, b)` for one character: same length, every `a` becomes `b`, every other character stays |
| Inventory.Stored | app.py:73-83 | the INSERT and UPDATE bind every one of the twelve columns to the submitted text: no column is NULL, and reading the columns back gives the form |
| Inventory.Like | app.py:40-51 | `value LIKE '%q%'`: NULL never matches; otherwise it is an ASCII case-insensitive substring test, so an empty query matches every non-NULL value |
| Inventory.Matches | app.py:44-51 | the WHERE clause: a row matches when one of its seven searched columns is LIKE the query; a matching row has some non-NULL searched column, and the empty query matches exactly those rows |
| Inventory.Filter | app.py:42-52 | the rows kept are exactly the rows matching the WHERE clause, in table order, each as many times as it occurs in the table |
| Inventory.Search | app.py:36-54 | no query or an empty query returns every row; otherwise exactly the rows with one of the seven searched columns containing the query, in table order, each as many times as it occurs in the table |
| Inventory.SearchIgnoresUnsearchedColumns | app.py:45-51 | two items that agree on the seven searched columns match the same queries, whatever their other five columns hold |
| Inventory.NullColumnsNeverMatch | app.py:45-51 | an item whose seven searched columns are all NULL matches no query |
| Inventory.SearchIgnoresQueryCase | app.py:40-51 | matching does not depend on the case of the query's letters |
| Inventory.NoMatchGivesNothing | app.py:39-52 | a non-empty query that no row matches returns no rows |
| Inventory.DistinctNames | app.py:57 | the suggestions list holds each inventory name (NULL included) that occurs in the table, and no name twice |
| Inventory.Find | app.py:115-132 | `SELECT ... WHERE id = ? fetchone()`: not found exactly when no row has the id; a found row is in the table and carries that id |
| Inventory.FindUnique | app.py:126 | with distinct ids, looking up a row's id finds that row |
| Inventory.MaxId | app.py:70 | `MAX(id)` is NULL exactly on an empty table; otherwise it is an existing id no smaller than any other |
| Inventory.NextId | app.py:70-71 | the new id exceeds every existing id; it is 1 on an empty table and one more than an existing id otherwise |
| Inventory.FindAppend | app.py:73-83 | after appending a row, a lookup finds what it found before, or the new row if its id was absent |
| Inventory.ViewAfterAdd | app.py:67-84 | after an add, viewing the new id shows exactly the submitted values; every other id shows what it showed before |
| Inventory.Overwrite | app.py:98-110 | the UPDATE keeps the number of rows and every row's id |
| Inventory.ViewAfterEdit | app.py:98-115 | after an edit, viewing the id shows exactly the new values, not a merge with the old ones; an absent id stays absent |
| Inventory.EditLeavesOtherIds | app.py:98-110 | an edit changes nothing visible under any other id |
| Inventory.EditOfMissingIdIsNoOp | app.py:98-110 | editing an id that is not in the table leaves the table unchanged |
| Inventory.Without | app.py:141 | `DELETE ... WHERE id = ?` keeps exactly the rows with other ids, in order and each as many times as before; the deleted id is not found afterwards; it changes nothing when the id is absent, and keeps ids distinct |
| Inventory.ViewAfterDelete | app.py:141 | after a delete every other id shows what it showed before |
| Inventory.DeleteIsIdempotent | app.py:141 | deleting twice is the same as deleting once |
| Inventory.NextIdAfterDeletingLargest | app.py:70-71 | after deleting the rows with the largest id `m` (at least 1), the next add gets an id no larger than `m`, and exactly `m` when some row has id `m - 1`, so the deleted id is handed out again |
| Inventory.FileNameChar | app.py:160 | the test `c.isalnum() or c in (' ', '-')`: spaces and hyphens are always kept, and the only whitespace kept is the space or what `isalnum` accepts |
| Inventory.KeepFileNameChars | app.py:160 | the comprehension keeps exactly the alphanumerics, spaces and hyphens, in order, each as often as in the name |
| Inventory.SafeName | app.py:160 | the file-name base is a subsequence of the item name, uses only kept characters and has no whitespace at either end |
| Inventory.DownloadQr | app.py:146-165 | an unknown id is "not found"; a known id with a NULL name fails; otherwise the file name is the safe name of that item's name plus `.png` |
| Inventory.ItemTable.QueryMaxId | app.py:70 | the scan computes `MAX(id)` of the current rows |
| Inventory.ItemTable.Add | app.py:67-84 | exactly one row is appended, under `NextId` of the old rows and holding the submitted values; ids stay distinct |
| Inventory.ItemTable.Edit | app.py:97-113 | the rows become `Overwrite` of the old rows with the submitted values; ids stay distinct |
| Inventory.ItemTable.Delete | app.py:135-144 | the rows become `Without` of the old rows; ids stay distinct |
| Seeding.Normalize | setup_db.py:28-30 | a normalised column name has no space, no newline and no capital letter, has no whitespace at either end, and is as long as the stripped name |
| Seeding.NormalizeIdempotent | setup_db.py:28-30 | normalising a normalised name changes nothing |
| Seeding.Renamed | setup_db.py:28-30 | renaming keeps the rows and the columns' cells and order; each column gets its normalised name |
| Seeding.IsArtifact | setup_db.py:33 | a leftover column is one whose name contains `unnamed` or `slno`; such a name contains an `n`, so a name without one (such as `id`) is kept |
| Seeding.Dropped | setup_db.py:33-34 | the kept columns are exactly those whose name contains neither `unnamed` nor `slno`, in order, each as many times as in the input |
| Seeding.DropArtifacts | setup_db.py:33-34 | the scan over the columns computes `Dropped` |
| Seeding.IdCells | setup_db.py:38 | the id column holds 1, 2, ..., n |
| Seeding.Backfill | setup_db.py:48-51 | the backfill keeps the height and every existing column in place, makes every listed name present, and appends only listed names that were absent, all NULL |
| Seeding.BackfillStep | setup_db.py:49-51 | one turn of the loop: a present name changes nothing; an absent one appends an all-NULL column under that name |
| Seeding.BackfillKeepsNamesUnique | setup_db.py:48-51 | backfilling distinct names into a frame with distinct column names keeps the names distinct |
| Seeding.BackfillColumns | setup_db.py:48-51 | the loop over the required names computes `Backfill` |
| Seeding.Seeded | setup_db.py:28-51 | the frame the script writes: rename, drop leftovers, put the `id` column 1..n first, backfill the listed names; it keeps the input's row count and starts with that `id` column |
| Seeding.Prepare | setup_db.py:24-51 | the script's steps, from the read frame to the frame it writes, compute `Seeded` |
| Seeding.RequiredNamesAreClean | setup_db.py:42-46 | the twelve required names are distinct and normal, and none is `id` or contains `unnamed` or `slno` |
| Seeding.KeptOrigin | setup_db.py:28-34 | every kept column is an input column under its normalised name, with the same cells |
| Seeding.SeededShape | setup_db.py:38-51 | the written frame has as many rows as the input, starts with the column `id` holding 1..n, is rectangular, has distinct column names and has every required column |
| Seeding.SeededColumnOrigins | setup_db.py:28-51 | every column after `id` is either a kept input column, renamed and with its cells, or a required name the input lacked, all NULL |
| Seeding.SeededColumnNames | setup_db.py:28-51 | every column name of the written frame is normalised, and no leftover column survives |
| Seeding.SeededKeepsInput | setup_db.py:28-34 | every input column that is not a leftover reaches the written frame, renamed, with its cells unchanged |
| Seeding.ColumnNamed | setup_db.py:55 | the lookup fails exactly when no column has the name; otherwise it returns a column of the frame with that name |
| Seeding.ColumnNamedUnique | setup_db.py:55 | with distinct names, a column is found under its own name |
| Seeding.CellText | setup_db.py:55 | the value `to_sql` writes for a cell: a text cell gives its text, and a missing cell gives NULL |
| Seeding.RowItem | setup_db.py:55 | row k becomes the item with the id cell of that row and, for each required name, the text of that row in the column of that name |
| Seeding.ToItems | setup_db.py:55 | `to_sql`: one item per frame row, in row order |
| Seeding.SeededItemsNumbered | setup_db.py:38-55 | the seeded table holds one item per input row, numbered 1..n in order, so its ids are distinct |
| Seeding.SeededFieldFromInput | setup_db.py:28-51 | a listed column supplied by the input holds that input column's value in every row, NULL where the cell was empty |
| Seeding.BackfilledColumnIsNull | setup_db.py:48-51 | a column added by the backfill is the one found under its name and is NULL in every row |
| Seeding.SeededFieldBackfilled | setup_db.py:48-51 | a listed column that no kept input column supplies is NULL in every row |
| Seeding.SeededItemsCarryInput | setup_db.py:24-55 | for a required column the input supplies, every seeded item carries the input's value, NULL where the cell was empty |
| Seeding.SeededItemsBackfillNull | setup_db.py:40-55 | for a required column the input lacks, every seeded item is NULL there |
| Seeding.InitDb | setup_db.py:16-55 | without a source file the table is untouched; otherwise the `items` table becomes exactly the seeded rows, with distinct ids, and no old row survives |
| Users.AppendKeepsUnique | create_user.py:45 | appending a row under a name not yet present keeps usernames unique |
| Users.HasUser | delete_user.py:37-38 | the SELECT followed by `fetchone()` finds a row exactly when some row carries the name |
| Users.WithoutUser | delete_user.py:43 | `DELETE ... WHERE username = ?` keeps exactly the rows under other names, in order and each as many times as before; afterwards the name is absent; an absent name changes nothing |
| Users.WithoutUserKeepsUnique | delete_user.py:43 | deleting keeps usernames unique |
| Users.WithoutUserKeepsOthers | delete_user.py:43 | deleting one name leaves every other name present or absent exactly as before |
| Users.WithoutUserIdempotent | delete_user.py:43 | deleting a name twice is deleting it once |
| Users.UserTable.FindUser | delete_user.py:37-38 | the SELECT finds a row exactly when some row has the name |
| Users.UserTable.Insert | create_user.py:45 | the INSERT succeeds exactly when the name is absent; it appends exactly the given row, and a refused insert changes nothing |
| Users.UserTable.DeleteNamed | delete_user.py:43 | the rows become `WithoutUser` of the old rows; usernames stay unique |
| UserCreation.CreateCheck | create_user.py:20-53 | the outcome is decided in this order: empty stripped username, then password mismatch, then a password shorter than 4, then a duplicate name, else created; each outcome holds exactly when its condition does and the earlier ones fail |
| UserCreation.CreateUser | create_user.py:16-53 | the outcome is `CreateCheck` of the input and the old rows; on success exactly one row is added, with the stripped username and the hash of the password; on any failure the table is unchanged |
| UserCreation.CreateTwiceIsDuplicate | create_user.py:45-53 | after a successful creation, a later creation under the same stripped name is refused as a duplicate |
| UserDeletion.Confirmed | delete_user.py:25-27 | `confirm.lower() == 'yes'`: the answer is lower-cased but not stripped, so a confirmation is exactly three characters long, and `yes` confirms |
| UserDeletion.ConfirmedExactly | delete_user.py:25-27 | the accepted answers are exactly `y`, `e`, `s` in that order, each in either case, with nothing around them |
| UserDeletion.ConfirmationExamples | delete_user.py:25-27 | `YES`, `Yes` and `yes` confirm; ` yes`, `yes `, `y` and `no` do not |
| UserDeletion.DeleteCheck | delete_user.py:18-41 | the outcome is decided in this order: empty stripped username, then no confirmation, then unknown name, else deleted; each outcome holds exactly when its condition does and the earlier ones fail |
| UserDeletion.DeleteUser | delete_user.py:16-44 | the outcome is `DeleteCheck` of the input and the old rows; on deletion the rows under the stripped name are removed and no others; otherwise the table is unchanged |
| UserDeletion.DeleteTwiceIsNotFound | delete_user.py:37-41 | after a deletion, the same request finds nothing |
| UserDeletion.DeleteThenCreate | delete_user.py:43 | after a deletion, creating the same name with a valid password succeeds |
| UserDeletion.AliceScenario | create_user.py:16-53 | starting from an empty table, creating `alice` with `hunter2` succeeds, a second attempt is a duplicate, deleting `alice` succeeds, and creating `alice` again succeeds |

## Left out

- HTTP and presentation. Flask routing, templates, redirects, `url_for`, the 404 responses as HTTP, and `send_file` are not modelled. Each handler's outcome is a value.
- Login. `app.py` has no login route, session or access guard: every route is open, so no authentication is modelled. The `users` table is written only by the two admin scripts.
- CSV export. `export_data` is not part of this model.
- The QR image. Building the QR code and its PNG (`segno`, `io.BytesIO`) is not modelled; `DownloadQr` computes only the outcome and the download file name.
- Database connections, commits and process-level errors. The generic `except Exception` branches of the admin scripts are not modelled.
- Concurrent writers. Two adds can read the same `MAX(id)`; the model runs one request at a time.
- LIKE wildcards. `%` and `_` typed into the search box act as wildcards in SQLite. `Inventory.Search` requires a query free of both and models plain substring matching.
- Inventory.NextIdAfterDeletingLargest: requires the largest id to be at least 1, as every id the add handler and the seeding script give out is. With only ids below 1, emptying the table restarts the ids at 1.
- Inventory.Like, Inventory.Search: case folding covers ASCII letters only, as SQLite's LIKE does; no other case folding is modelled.
- Seeding.Normalize: lower-cases ASCII letters only. pandas also lower-cases other letters, which this model does not capture.
- UserDeletion.Confirmed: lower-cases ASCII letters only, where Python's `str.lower` folds all of Unicode.
- Inventory.SafeName: `str.isalnum` is the parameter `isAlnum`, because Python's Unicode character tables are not modelled.
- Reading the file. `pd.read_csv` is not modelled: `InitDb` receives the parsed frame, or `None` when the file does not exist. Cells are text or missing, as `dtype=str` gives.
- Seeding.InitDb: requires the input to be seedable. A kept column that normalises to `id` makes `df.insert` raise, and two kept columns that normalise to the same name make `to_sql` fail; neither failure is modelled.
- Seeding.ToItems: the items carry the id and the twelve columns the application reads. Extra input columns that reach the written table are not carried into `Inventory.Item`; `Seeding.Seeded` still keeps them.
- Printed messages, prompts and `getpass`. Each script's result is an outcome value, and typed input is a parameter.
- Password hashing. `generate_password_hash` is the parameter `hash`. Its salting and randomness are not modelled, so `CreateUser` states that the stored value is `hash(password)`, not that it differs from the password.
- The users table schema. The scripts rely on a UNIQUE constraint on `users.username` that no modelled file defines; `Users.UserTable.Valid` takes it as given. The `users.id` column is not modelled.
- Suggestions order. `SELECT DISTINCT` guarantees no order; `Inventory.DistinctNames` fixes first-occurrence order and its contract speaks only of membership and distinctness.
- Inventory.Find, Inventory.DownloadQr, Inventory.ItemTable.Edit, Inventory.ItemTable.Delete: ids are unbounded integers. Flask's `<int:id>` accepts any digit string, and an id outside SQLite's 64-bit INTEGER range makes the `sqlite3` parameter binding raise `OverflowError` (a 500 response). The model reports such an id as not found, or changes nothing. `(max_id or 0) + 1` would raise the same way past 2^63 - 1, which no modelled writer reaches.
