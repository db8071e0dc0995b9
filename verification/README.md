# Task store of a command-line to-do tracker, modelled in Dafny

The tracker keeps tasks in one SQLite table, `tasks`, behind a data-access module
(`database.py`) and a seven-field record (`models.py`). This project models that layer:

- `models.dfy` (module `Models`): the `Task` record with its defaults and the status and
  priority values it is meant to take.
- `sqltext.dfy` (module `SqlText`): what SQLite does with the text in two of the statements.
  This covers the LIKE operator with its default settings (`%`, `_`, ASCII-only case folding,
  no escape character), and the decimal text an integer gets when it is bound as a LIKE pattern.
- `tables.dfy` (module `Tables`): the table's rows and the relational meaning of each
  statement the store runs, as functions over the rows in rowid order. It also holds the
  lemmas about them: id freshness, frame conditions, filter soundness and completeness, and
  the stats total.
- `database.dfy` (module `Database`): the store as a class. It holds the rows, the
  AUTOINCREMENT counter (the largest id ever issued) and whether the table exists. The four
  statements that change the table are methods. The three queries are functions over the
  store's state. A short client (module `Walkthrough`) adds two tasks, marks one done, runs
  both deletes and adds again, using only the contracts.

Each SQL statement is modelled by its meaning on the table, not as a library call. Where the
code leaves out behaviour a task tracker might be expected to have, the model follows the
code. Update reports no error for an unknown id, search has no ORDER BY, and insert accepts
an empty description. Delete fails on every call, whatever the id, because of the defect at
database.py:49 described under "## Left out" and "## Findings".

## Model

| member | source | states |
|---|---|---|
| `Models.DefaultsAreUnsetOrAllowed` | models.py:6-13 | A freshly built record has no id, no due date and no creation date. Its description is empty and its category is "general". Its status ("todo") and priority ("medium") are among the allowed values. |
| `Tables.DefaultsMatchColumnDefaults` | database.py:16-18 | Inserting a record built with only a description stores the status, priority and category defaults that the CREATE TABLE statement declares. |
| `Tables.RowRoundTrip` | database.py:39 | `Task(**row)` maps each of the seven columns to the field of the same name. Writing the record back gives the same row, and only a row's own record converts back to it. |
| `Tables.TasksMembership` | database.py:39 | The list comprehension holds a row's record exactly when the row is among the selected rows. |
| `Tables.Where` | database.py:35-37 | A WHERE clause keeps exactly the rows meeting its condition, never more rows than the table holds, and the id order. |
| `Tables.WhereAll` | database.py:37 | A condition every row meets, such as the unfiltered SELECT, returns the whole table. |
| `Tables.NewRowReadsBack` | database.py:25-30 | The inserted row reads back as the caller's record with the store's id and today's date. The caller's own id and creation date have no effect on the row. |
| `Tables.AppendKeepsWellFormed` | database.py:14 | A row inserted under counter + 1 has an id above every id in the table, and the table stays in id order with the counter at the new id. |
| `Tables.AddedTaskIsListedLast` | database.py:24-39 | After an insert, listing every task gives the earlier list followed by the new record. |
| `Tables.SetColumns` | database.py:42-44 | The SET clause gives each named column its new value and leaves every other column, the id and `created_at` unchanged. |
| `Tables.UpdateWhereId` | database.py:44 | UPDATE ... WHERE id rewrites the row with that id, keeps every other row, and changes no id. |
| `Tables.UpdateKeepsWellFormed` | database.py:44 | An update keeps the table in id order within the counter. |
| `Tables.UpdateOfUnknownIdIsNoOp` | database.py:44 | Updating an id no row has leaves the table unchanged and raises no error. |
| `SqlText.LikeLiteral` | database.py:48 | A LIKE pattern without wildcards matches exactly the strings equal to it up to ASCII case. |
| `SqlText.DecimalText` | database.py:48 | The text an integer id takes as a LIKE pattern is a minus sign for a negative id, then digits with no leading zero unless the id is zero. |
| `SqlText.DigitsDenote` | database.py:48 | The digits of a natural number denote that number. |
| `SqlText.DecimalTextDenotes` | database.py:48 | An id's text, read as a decimal numeral, gives back the id. |
| `SqlText.DecimalTextInjective` | database.py:48 | Two ids have the same text exactly when they are equal, so each id is a different pattern. |
| `SqlText.LikeDecimalIsEquality` | database.py:48 | `description LIKE <id>` holds exactly when the description is the id's decimal text. |
| `Tables.DeleteTaskRemovesDescriptionMatches` | database.py:48 | delete_task removes exactly the rows whose description is the id's decimal text and keeps all others. |
| `Tables.DeleteTaskKeepsTargetRow` | database.py:48 | The row whose id is the one passed to delete_task survives it unless its description is that number's text. |
| `Tables.DeleteTaskMissesItsRow` | database.py:48 | Counterexample: a table holding task 1 "Buy milk" still holds it after delete_task(1). |
| `Tables.DeleteByIdRemovesExactlyThatRow` | database.py:47-48 | The corrected delete removes exactly the row with that id and keeps every other row in order. The count drops by one when such a row exists and stays the same otherwise. |
| `SqlText.LikeContains` | database.py:52 | For a keyword without wildcards, `LIKE '%keyword%'` holds exactly when the keyword occurs in the description, ignoring ASCII case. |
| `Tables.CountStatusPositive` | database.py:57 | A status has a non-zero count exactly when some row carries it. |
| `Tables.GroupByStatus` | database.py:57-58 | GROUP BY status gives one key per status present, each mapped to the number of rows carrying it. |
| `Tables.GroupCountsSumToRowCount` | database.py:57-60 | The per-status counts add up to the number of rows. |
| `Tables.StatsConsistent` | database.py:56-61 | `"total"` is the row count and equals the sum of the per-status counts, provided no task has the status "total". |
| `Tables.StatsOfAllowedStatuses` | models.py:9 | When every status is one of todo / in-progress / done, the stats hold only those keys and `"total"`, and the total is the sum of the others. |
| `Database.Store.Connect` | database.py:6-9 | Connecting sees the file's table and counter, or no table at all. |
| `Database.Store.CreateTable` | database.py:11-22 | CREATE TABLE IF NOT EXISTS makes an empty table with the counter at zero. On an existing table it leaves every row and the counter unchanged, so a second call changes nothing. |
| `Database.Store.AddTask` | database.py:24-31 | Adds exactly one row, under id counter + 1, which is above every id ever issued. Existing rows are unchanged. A NULL description or an exhausted counter raises, leaving rows and counter unchanged. |
| `Database.Store.GetAllTasks` | database.py:33-39 | Returns the records of exactly the rows with the filter's status, or of every row when the filter is missing or empty. They come in strictly ascending id order, and an empty list means nothing matched. |
| `Database.Store.UpdateTask` | database.py:41-45 | An empty update is a syntax error and changes nothing. An id outside the signed 64-bit range raises OverflowError and changes nothing. Otherwise only the named columns of the row with that id change. An unknown id changes nothing, and the counter is never touched. |
| `Database.Store.DeleteTask` | database.py:47-49 | As written: an id outside the signed 64-bit range raises OverflowError and changes nothing. Otherwise it removes exactly the rows whose description is the id's decimal text and keeps the others in order, then fails with AttributeError at `c.commit`. Every call fails, and the counter is never touched. |
| `Database.Store.DeleteById` | database.py:47-48 | As intended: removes the row with that id and keeps the others in order. The counter is unchanged, so the id is never issued again. An id outside the 64-bit range raises OverflowError and changes nothing. |
| `Database.Store.SearchTasks` | database.py:51-54 | Returns the records of exactly the rows whose description is LIKE `%keyword%`, each once (no two share an id), never more than the table holds. The order is left open. |
| `Database.Store.GetStats` | database.py:56-61 | Each status present maps to its row count, and `"total"` maps to the number of rows. |

## Left out

- The sqlite3 connection and cursor globals and the `todos.db` path are replaced by one
  `Store` object. Transactions and `conn.commit()` durability are left out as well: each
  statement's effect is applied to the store at once.
- `Database.Store.DeleteTask`: database.py:49 evaluates `c.commit` on the cursor, which has no
  `commit` attribute. So every delete_task call whose id can be bound raises AttributeError
  after the DELETE has run, and the model returns that error with the rows already removed.
  What the model does not capture is that the DELETE stays in an uncommitted transaction. When
  the process ends on that error, SQLite rolls the transaction back and the file keeps the rows.
- `date.today()` becomes the `today` parameter, and dates are abstract day numbers. The module
  connects without `detect_types`, so the source actually reads dates back as ISO text. The
  model keeps them as dates.
- The crash-level defects are modelled by their evident intent:
  - database.py:38 takes `c.fetchall` without calling it. The model uses the fetched rows, as
    at database.py:53.
  - database.py:57 is not valid SQL (`SELECT * status, ...`). The model groups by status.
  - database.py:60 stores the first fetched row, not its count. The model stores the count.
  - database.py:61 returns the undefined name `status`. The model returns the stats dictionary.
  - The doc comments of `Database.Store.GetAllTasks` and `Database.Store.GetStats` repeat this.
- update_task builds its SET clause from keyword-argument names (database.py:42-43). The model
  takes a map from the five updatable columns to values. Any other key, and SQL injection
  through key names, are not modelled.
- `Database.Store.UpdateTask` requires text for the four text columns and a date or NULL for
  the due date. That is what every caller passes. A NULL written to a text column, and
  SQLite's acceptance of any value type in any column, are not modelled.
- On insert, status, priority and category are always text. A `None` there, which SQLite
  would store as NULL, is not modelled; a `None` description is modelled, since the NOT NULL
  constraint rejects it.
- `Database.Store.SearchTasks` does not model SQLite's limit on LIKE pattern length (50000
  bytes by default). A longer keyword makes SQLite raise an error. It also does not model LIKE
  case folding beyond ASCII, which SQLite's default build does not do either.
- `Database.Store.Connect` requires an existing table to be well formed: ids between 1 and the
  counter, in order. Rows that other programs wrote with explicit ids are not modelled.
  Because of this, the next AUTOINCREMENT id (the larger of the counter and the largest id,
  plus one) is always counter + 1.
- `Tables.StatsConsistent` assumes that no task has the status "total". get_stats writes
  `"total"` into the same dictionary as the status groups, so such a group would be
  overwritten. Nothing stops `mark` from setting that status.
- The whole command-line layer (ToDo_App.py) is left out: argument parsing,
  `date.fromisoformat`, table rendering, colours and overdue highlighting. So is the
  undefined `task` at ToDo_App.py:97.

## Findings

| source | as written | input that shows it | evidently intended | confidence | as-written member | corrected member |
|---|---|---|---|---|---|---|
| database.py:48 | `DELETE FROM tasks WHERE description LIKE ?` with the task id bound as the pattern. This removes the rows whose description is the id's decimal text. | A table holding task 1 "Buy milk"; delete_task(1) leaves it in place. A task whose description is "1" would be removed instead. | `DELETE FROM tasks WHERE id = ?`, removing the row with that id. | high; not executed | `Tables.DeleteTaskMissesItsRow` | `Tables.DeleteByIdRemovesExactlyThatRow` |
| database.py:49 | `c.commit` looks up `commit` on the cursor, which has no such attribute. | Any call delete_task(1): the DELETE runs, then AttributeError is raised and the change is never committed. | `conn.commit()`, committing the delete and returning normally. | high; not executed | `Database.Store.DeleteTask` | `Database.Store.DeleteById` |
