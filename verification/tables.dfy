/**
 * The `tasks` table of database.py and the relational meaning of each SQL statement the
 * store runs against it, as functions over the table's rows in rowid order.
 */
module Tables {
  import opened Wrappers
  import opened Models
  import opened SqlText

  /** The largest rowid SQLite will hand out (2^63 - 1); AUTOINCREMENT fails beyond it. */
  const MaxRowId: int := 0x7FFF_FFFF_FFFF_FFFF

  /** The smallest value of SQLite's signed 64-bit INTEGER. */
  const MinInteger: int := -0x8000_0000_0000_0000

  /** Python's sqlite3 binds an int parameter only when it fits a signed 64-bit INTEGER. */
  predicate Bindable(n: int)
  {
    MinInteger <= n <= MaxRowId
  }

  /** The DEFAULT values of the CREATE TABLE statement. */
  const ColumnDefaultStatus: string := "todo"
  const ColumnDefaultPriority: string := "medium"
  const ColumnDefaultCategory: string := "general"

  /** One stored row. `description` is NOT NULL; `due_date` and `created_at` may be NULL. */
  datatype Row = Row(
    id: int,
    description: string,
    status: string,
    priority: string,
    category: string,
    dueDate: Option<Date>,
    createdAt: Option<Date>)

  /** The columns a caller may name in an update. */
  datatype Column = Description | Status | Priority | Category | DueDate

  /** A value bound into an UPDATE: text, or a date that may be NULL. */
  datatype Value = Text(text: string) | Day(day: Option<Date>)

  /** The errors the store's operations raise. */
  datatype StoreError =
    | NotNull(column: Column)   // IntegrityError: NOT NULL constraint failed
    | SyntaxError               // OperationalError: the statement does not parse
    | DatabaseFull              // AUTOINCREMENT has no rowid left to issue
    | TooLarge                  // OverflowError: an int parameter outside the 64-bit range
    | NoCommitOnCursor          // AttributeError: `commit` looked up on the cursor

  /** Rows are kept in rowid order, so ids strictly increase along the sequence. */
  predicate StrictlyAscending(rows: seq<Row>)
  {
    forall i, j :: 0 <= i < j < |rows| ==> rows[i].id < rows[j].id
  }

  /**
   * A table as this store leaves it: `lastId` is the AUTOINCREMENT counter (the largest id
   * ever issued for the table), every stored id lies between 1 and it, and rows are in id order.
   */
  predicate WellFormed(rows: seq<Row>, lastId: int)
  {
    && 0 <= lastId <= MaxRowId
    && (forall i :: 0 <= i < |rows| ==> 1 <= rows[i].id <= lastId)
    && StrictlyAscending(rows)
  }

  // ---------------------------------------------------------------- rows and records

  /** `Task(**row)`: each column becomes the field of the same name. */
  function TaskOf(row: Row): Task
  {
    Task(Some(row.id), Some(row.description), row.status, row.priority, row.category,
         row.dueDate, row.createdAt)
  }

  /** The row a record stands for, when it has the id and description a row needs. */
  function RowOf(t: Task): Option<Row>
  {
    if t.id.Some? && t.description.Some? then
      Some(Row(t.id.value, t.description.value, t.status, t.priority, t.category,
               t.dueDate, t.createdAt))
    else None
  }

  /** Reading a row into a record and writing it back gives the same row, and only rows' records convert back. */
  lemma RowRoundTrip(row: Row, t: Task)
    ensures RowOf(TaskOf(row)) == Some(row)
    ensures RowOf(t) == Some(row) <==> TaskOf(row) == t
  {
  }

  /** `[Task(**row) for row in rows]`. */
  function Tasks(rows: seq<Row>): seq<Task>
  {
    seq(|rows|, i requires 0 <= i < |rows| => TaskOf(rows[i]))
  }

  /** A row's record is in the list exactly when the row is among the listed rows. */
  lemma {:induction false} TasksMembership(rows: seq<Row>, row: Row)
    ensures TaskOf(row) in Tasks(rows) <==> row in rows
  {
    if TaskOf(row) in Tasks(rows) {
      var i :| 0 <= i < |rows| && Tasks(rows)[i] == TaskOf(row);
      RowRoundTrip(rows[i], TaskOf(row));
      RowRoundTrip(row, TaskOf(row));
    }
    if row in rows {
      var i :| 0 <= i < |rows| && rows[i] == row;
      assert Tasks(rows)[i] == TaskOf(row);
    }
  }

  /** Every record in the list is the record of one of the rows. */
  lemma TasksComeFromRows(rows: seq<Row>)
    ensures forall t :: t in Tasks(rows) ==> exists row :: row in rows && TaskOf(row) == t
  {
    forall t | t in Tasks(rows) ensures exists row :: row in rows && TaskOf(row) == t {
      var i :| 0 <= i < |rows| && Tasks(rows)[i] == t;
      assert rows[i] in rows;
    }
  }

  /** Rows in ascending id order give records in ascending id order. */
  lemma TasksAscending(rows: seq<Row>)
    requires StrictlyAscending(rows)
    ensures AscendingIds(Tasks(rows))
  {
  }

  /** The records of a list all have ids, increasing strictly along the list. */
  predicate AscendingIds(ts: seq<Task>)
  {
    && (forall i :: 0 <= i < |ts| ==> ts[i].id.Some?)
    && (forall i, j :: 0 <= i < j < |ts| ==> ts[i].id.Some? && ts[j].id.Some? && ts[i].id.value < ts[j].id.value)
  }

  // ---------------------------------------------------------------- WHERE

  /** The rows for which `keep` holds, in table order: the meaning of a WHERE clause. */
  function Where(rows: seq<Row>, keep: Row -> bool): (r: seq<Row>)
    ensures |r| <= |rows|
    ensures forall row :: row in r <==> row in rows && keep(row)
    ensures StrictlyAscending(rows) ==> StrictlyAscending(r)
  {
    if rows == [] then []
    else
      var rest := Where(rows[1..], keep);
      HeadBelowTail(rows);
      if keep(rows[0]) then [rows[0]] + rest else rest
  }

  /** In an ascending table the tail is ascending and every row of it lies above the head. */
  lemma HeadBelowTail(rows: seq<Row>)
    requires rows != []
    ensures StrictlyAscending(rows) ==> StrictlyAscending(rows[1..])
    ensures StrictlyAscending(rows) ==> forall row :: row in rows[1..] ==> rows[0].id < row.id
  {
  }

  /** A condition every row meets selects the whole table. */
  lemma {:induction false} WhereAll(rows: seq<Row>, keep: Row -> bool)
    requires forall row :: row in rows ==> keep(row)
    ensures Where(rows, keep) == rows
  {
    if rows != [] {
      WhereAll(rows[1..], keep);
    }
  }

  /** `WHERE status = s`. */
  function HasStatus(s: string): Row -> bool
  {
    (row: Row) => row.status == s
  }

  /** get_all_tasks' condition: a missing or empty filter (Python-falsy) lists every row. */
  function ListedBy(filterStatus: Option<string>): Row -> bool
  {
    (row: Row) => filterStatus.None? || filterStatus.value == "" || row.status == filterStatus.value
  }

  /** search_tasks' condition: `description LIKE '%keyword%'`. */
  function Mentions(keyword: string): Row -> bool
  {
    (row: Row) => Like(row.description, "%" + keyword + "%")
  }

  /** The rows delete_task keeps: those whose description is NOT LIKE the id bound as pattern. */
  function DescriptionNotLike(taskId: int): Row -> bool
  {
    (row: Row) => !Like(row.description, DecimalText(taskId))
  }

  /** The rows a delete by primary key keeps. */
  function IdIsNot(taskId: int): Row -> bool
  {
    (row: Row) => row.id != taskId
  }

  // ---------------------------------------------------------------- INSERT

  /**
   * The row add_task inserts under `id`: the five task columns copied from the record,
   * `created_at` set to `today`. The record's own id and creation date play no part.
   */
  function NewRow(id: int, task: Task, today: Date): Row
    requires task.description.Some?
  {
    Row(id, task.description.value, task.status, task.priority, task.category,
        task.dueDate, Some(today))
  }

  /**
   * The inserted row reads back as the caller's record with the store's id and today's date;
   * the caller's own id and creation date are ignored.
   */
  lemma NewRowReadsBack(id: int, task: Task, today: Date)
    requires task.description.Some?
    ensures TaskOf(NewRow(id, task, today)) == task.(id := Some(id), createdAt := Some(today))
    ensures forall other: Task ::
      (&& other.description == task.description && other.status == task.status
       && other.priority == task.priority && other.category == task.category
       && other.dueDate == task.dueDate)
      ==> NewRow(id, other, today) == NewRow(id, task, today)
  {
  }

  /**
   * The record's defaults agree with the columns' DEFAULT values: inserting a record built
   * with only a description stores what an INSERT naming only description and created_at would.
   */
  lemma DefaultsMatchColumnDefaults(id: int, description: string, today: Date)
    ensures NewRow(id, Default.(description := Some(description)), today)
         == Row(id, description, ColumnDefaultStatus, ColumnDefaultPriority, ColumnDefaultCategory, None, Some(today))
  {
  }

  /**
   * Appending a row under the next counter value keeps the table well formed, and the new id
   * is larger than every id the table holds.
   */
  lemma AppendKeepsWellFormed(rows: seq<Row>, lastId: int, row: Row)
    requires WellFormed(rows, lastId) && lastId < MaxRowId && row.id == lastId + 1
    ensures WellFormed(rows + [row], lastId + 1)
    ensures forall old_row :: old_row in rows ==> old_row.id < row.id
  {
  }

  /**
   * Listing every task after an insert gives the earlier list followed by the caller's record,
   * carrying the new id and today's date.
   */
  lemma {:induction false} AddedTaskIsListedLast(rows: seq<Row>, id: int, task: Task, today: Date)
    requires task.description.Some?
    ensures Tasks(Where(rows + [NewRow(id, task, today)], ListedBy(None)))
         == Tasks(Where(rows, ListedBy(None))) + [task.(id := Some(id), createdAt := Some(today))]
  {
    var row := NewRow(id, task, today);
    WhereAll(rows + [row], ListedBy(None));
    WhereAll(rows, ListedBy(None));
    NewRowReadsBack(id, task, today);
    TasksAppend(rows, row);
  }

  /** The records of an extended table are the earlier records followed by the new row's. */
  lemma TasksAppend(rows: seq<Row>, row: Row)
    ensures Tasks(rows + [row]) == Tasks(rows) + [TaskOf(row)]
  {
  }

  // ---------------------------------------------------------------- UPDATE

  /** The value a row holds in an updatable column. */
  function ColumnValue(row: Row, c: Column): Value
  {
    match c
    case Description => Text(row.description)
    case Status => Text(row.status)
    case Priority => Text(row.priority)
    case Category => Text(row.category)
    case DueDate => Day(row.dueDate)
  }

  /** Every text column receives text and the due date receives a date or NULL, as the callers pass them. */
  predicate WellTyped(updates: map<Column, Value>)
  {
    forall c :: c in updates ==> (updates[c].Day? <==> c == DueDate)
  }

  /** The text an update assigns to column `c`, or the current text when `c` is not named. */
  function TextOr(updates: map<Column, Value>, c: Column, current: string): string
    requires WellTyped(updates) && c != DueDate
  {
    if c in updates then updates[c].text else current
  }

  /** `SET k1 = v1, ...` applied to one row. */
  function SetColumns(row: Row, updates: map<Column, Value>): (r: Row)
    requires WellTyped(updates)
    ensures r.id == row.id && r.createdAt == row.createdAt
    ensures forall c :: ColumnValue(r, c) == if c in updates then updates[c] else ColumnValue(row, c)
  {
    Row(row.id,
        TextOr(updates, Description, row.description),
        TextOr(updates, Status, row.status),
        TextOr(updates, Priority, row.priority),
        TextOr(updates, Category, row.category),
        if DueDate in updates then updates[DueDate].day else row.dueDate,
        row.createdAt)
  }

  /** `UPDATE tasks SET ... WHERE id = ?`: the row with that id is rewritten, every other row stays. */
  function UpdateWhereId(rows: seq<Row>, id: int, updates: map<Column, Value>): (r: seq<Row>)
    requires WellTyped(updates)
    ensures |r| == |rows|
    ensures forall i :: 0 <= i < |rows| ==> r[i].id == rows[i].id
    ensures forall i :: 0 <= i < |rows| ==>
      r[i] == if rows[i].id == id then SetColumns(rows[i], updates) else rows[i]
  {
    if rows == [] then []
    else
      var head := if rows[0].id == id then SetColumns(rows[0], updates) else rows[0];
      var rest := UpdateWhereId(rows[1..], id, updates);
      assert forall i :: 1 <= i < |rows| ==> rows[1..][i - 1] == rows[i];
      [head] + rest
  }

  /** An update keeps the table well formed, since it changes no id. */
  lemma UpdateKeepsWellFormed(rows: seq<Row>, lastId: int, id: int, updates: map<Column, Value>)
    requires WellTyped(updates) && WellFormed(rows, lastId)
    ensures WellFormed(UpdateWhereId(rows, id, updates), lastId)
  {
  }

  /** An update naming an id no row has leaves the table as it was. */
  lemma UpdateOfUnknownIdIsNoOp(rows: seq<Row>, id: int, updates: map<Column, Value>)
    requires WellTyped(updates)
    requires forall row :: row in rows ==> row.id != id
    ensures UpdateWhereId(rows, id, updates) == rows
  {
    var r := UpdateWhereId(rows, id, updates);
    forall i | 0 <= i < |rows| ensures r[i] == rows[i] {
      assert rows[i] in rows;
    }
  }

  // ---------------------------------------------------------------- DELETE

  /**
   * delete_task as written removes exactly the rows whose description is the decimal text of
   * the id, keeps the rest in order, never grows the table, and does not look at ids at all.
   */
  lemma {:induction false} DeleteTaskRemovesDescriptionMatches(rows: seq<Row>, taskId: int)
    ensures forall row :: row in Where(rows, DescriptionNotLike(taskId)) <==>
      row in rows && row.description != DecimalText(taskId)
  {
    forall row | row in rows
      ensures DescriptionNotLike(taskId)(row) <==> row.description != DecimalText(taskId)
    {
      LikeDecimalIsEquality(row.description, taskId);
    }
  }

  /** A row whose id is `taskId` but whose description is some other text survives delete_task(taskId). */
  lemma DeleteTaskKeepsTargetRow(rows: seq<Row>, taskId: int, row: Row)
    requires row in rows && row.id == taskId && row.description != DecimalText(taskId)
    ensures row in Where(rows, DescriptionNotLike(taskId))
  {
    DeleteTaskRemovesDescriptionMatches(rows, taskId);
  }

  /** The counterexample: a table holding task 1 "Buy milk" still holds it after delete_task(1). */
  lemma DeleteTaskMissesItsRow()
    ensures var row := Row(1, "Buy milk", "todo", "low", "home", None, Some(0));
      Where([row], DescriptionNotLike(1)) == [row]
  {
    var row := Row(1, "Buy milk", "todo", "low", "home", None, Some(0));
    assert row.description != DecimalText(1) by {
      assert |DecimalText(1)| == 1;
    }
    DeleteTaskRemovesDescriptionMatches([row], 1);
    var r := Where([row], DescriptionNotLike(1));
    assert row in r;
    assert r == [row];
  }

  /** Deleting by primary key removes exactly the row with that id and keeps every other row. */
  lemma DeleteByIdRemovesExactlyThatRow(rows: seq<Row>, lastId: int, taskId: int)
    requires WellFormed(rows, lastId)
    ensures WellFormed(Where(rows, IdIsNot(taskId)), lastId)
    ensures forall row :: row in Where(rows, IdIsNot(taskId)) <==> row in rows && row.id != taskId
    ensures |Where(rows, IdIsNot(taskId))| == |rows| - (if exists row :: row in rows && row.id == taskId then 1 else 0)
  {
    var r := Where(rows, IdIsNot(taskId));
    if exists row :: row in rows && row.id == taskId {
      var k :| 0 <= k < |rows| && rows[k].id == taskId;
      WhereSkipsOne(rows, taskId, k);
    } else {
      WhereAll(rows, IdIsNot(taskId));
    }
  }

  /** With ids distinct, removing the one row at index `k` that has id `taskId` leaves the others in order. */
  lemma {:induction false} WhereSkipsOne(rows: seq<Row>, taskId: int, k: int)
    requires StrictlyAscending(rows) && 0 <= k < |rows| && rows[k].id == taskId
    ensures Where(rows, IdIsNot(taskId)) == rows[..k] + rows[k + 1..]
  {
    HeadBelowTail(rows);
    var keep := IdIsNot(taskId);
    var tail := rows[1..];
    if k == 0 {
      assert Where(rows, keep) == Where(tail, keep);
      WhereAll(tail, keep);
    } else {
      assert Where(rows, keep) == [rows[0]] + Where(tail, keep);
      assert tail[k - 1] == rows[k];
      WhereSkipsOne(tail, taskId, k - 1);
      SplitAfterHead(rows, k);
    }
  }

  /** Cutting index `k` out of the tail and putting the head back cuts index `k` out of the whole. */
  lemma SplitAfterHead(rows: seq<Row>, k: int)
    requires 0 < k < |rows|
    ensures [rows[0]] + (rows[1..][..k - 1] + rows[1..][k..]) == rows[..k] + rows[k + 1..]
  {
    assert rows[1..][..k - 1] == rows[1..k];
    assert rows[1..][k..] == rows[k + 1..];
    assert rows[..k] == [rows[0]] + rows[1..k];
  }

  // ---------------------------------------------------------------- GROUP BY status

  /** `COUNT(*) ... WHERE status = s`. */
  function CountStatus(rows: seq<Row>, s: string): nat
  {
    |Where(rows, HasStatus(s))|
  }

  /** Counting row by row: the head contributes one when it has the status. */
  lemma CountStatusStep(rows: seq<Row>)
    requires rows != []
    ensures forall s :: CountStatus(rows, s) == (if rows[0].status == s then 1 else 0) + CountStatus(rows[1..], s)
  {
    forall s ensures CountStatus(rows, s) == (if rows[0].status == s then 1 else 0) + CountStatus(rows[1..], s) {
      assert HasStatus(s)(rows[0]) == (rows[0].status == s);
    }
  }

  /** A status has a non-zero count exactly when some row carries it. */
  lemma CountStatusPositive(rows: seq<Row>, s: string)
    ensures CountStatus(rows, s) > 0 <==> exists row :: row in rows && row.status == s
  {
    var w := Where(rows, HasStatus(s));
    if |w| > 0 {
      assert w[0] in w;
    }
    if exists row :: row in rows && row.status == s {
      var row :| row in rows && row.status == s;
      assert row in w;
    }
  }

  /**
   * `SELECT status, COUNT(*) FROM tasks GROUP BY status` as a dictionary: one key per status
   * with a non-zero count, mapped to that count.
   */
  function GroupByStatus(rows: seq<Row>): (m: map<string, nat>)
    ensures forall s :: s in m <==> CountStatus(rows, s) > 0
    ensures forall s :: s in m ==> m[s] == CountStatus(rows, s)
  {
    if rows == [] then map[]
    else
      CountStatusStep(rows);
      Bump(GroupByStatus(rows[1..]), rows[0].status)
  }

  /** One more occurrence of `k`. */
  function Bump(m: map<string, nat>, k: string): map<string, nat>
  {
    m[k := (if k in m then m[k] else 0) + 1]
  }

  /** The dictionary get_stats means to return: the group counts plus `"total"`, the row count. */
  function Stats(rows: seq<Row>): map<string, nat>
  {
    GroupByStatus(rows)["total" := |rows|]
  }

  /** The sum of a dictionary's values. */
  ghost function SumValues(m: map<string, nat>): nat
    decreases |m|
  {
    if |m| == 0 then 0
    else
      var k := PickKey(m);
      assert (m - {k}).Keys == m.Keys - {k};
      m[k] + SumValues(m - {k})
  }

  /** Some key of a non-empty dictionary. */
  ghost function PickKey(m: map<string, nat>): (k: string)
    requires |m| > 0
    ensures k in m
  {
    assert |m.Keys| > 0;
    var k :| k in m.Keys; k
  }

  /** The sum does not depend on which key is taken out first. */
  lemma {:induction false} SumValuesRemove(m: map<string, nat>, k: string)
    requires k in m
    ensures SumValues(m) == m[k] + SumValues(m - {k})
    decreases |m|
  {
    var j := PickKey(m);
    assert (m - {j}).Keys == m.Keys - {j};
    if j != k {
      assert (m - {k}).Keys == m.Keys - {k};
      SumValuesRemove(m - {j}, k);
      SumValuesRemove(m - {k}, j);
      assert m - {j} - {k} == m - {k} - {j};
    }
  }

  /** Counting one more occurrence of `k` adds one to the sum. */
  lemma SumValuesIncrement(m: map<string, nat>, k: string, v: nat)
    requires v == (if k in m then m[k] else 0) + 1
    ensures SumValues(m[k := v]) == SumValues(m) + 1
  {
    if k in m {
      SumValuesReplace(m, k, v);
    } else {
      SumValuesAdd(m, k, v);
    }
  }

  /** Replacing the value of a present key changes the sum by the difference. */
  lemma SumValuesReplace(m: map<string, nat>, k: string, v: nat)
    requires k in m
    ensures SumValues(m[k := v]) + m[k] == SumValues(m) + v
  {
    SumValuesRemove(m[k := v], k);
    ReplaceThenRemove(m, k, v);
    SumValuesRemove(m, k);
  }

  /** Adding a fresh key adds its value to the sum. */
  lemma SumValuesAdd(m: map<string, nat>, k: string, v: nat)
    requires k !in m
    ensures SumValues(m[k := v]) == SumValues(m) + v
  {
    SumValuesRemove(m[k := v], k);
    AddThenRemove(m, k, v);
  }

  /** Replacing the value of `k` and then removing `k` is removing `k`. */
  lemma ReplaceThenRemove(m: map<string, nat>, k: string, v: nat)
    ensures m[k := v] - {k} == m - {k}
  {
  }

  /** The group counts add up to the number of rows. */
  lemma {:induction false} GroupCountsSumToRowCount(rows: seq<Row>)
    ensures SumValues(GroupByStatus(rows)) == |rows|
  {
    if rows == [] {
      assert GroupByStatus(rows) == map[];
    } else {
      var m := GroupByStatus(rows[1..]);
      var s := rows[0].status;
      var v := (if s in m then m[s] else 0) + 1;
      assert GroupByStatus(rows) == m[s := v];
      GroupCountsSumToRowCount(rows[1..]);
      SumValuesIncrement(m, s, v);
    }
  }

  /** Adding a fresh key and taking it out again gives back the dictionary. */
  lemma AddThenRemove(m: map<string, nat>, k: string, v: nat)
    requires k !in m
    ensures m[k := v] - {k} == m
  {
  }

  /**
   * get_stats is consistent: `"total"` is the row count and equals the sum of the per-status
   * counts, as long as no task has the status `"total"`, whose group the total overwrites.
   */
  lemma StatsConsistent(rows: seq<Row>)
    requires forall row :: row in rows ==> row.status != "total"
    ensures "total" in Stats(rows) && Stats(rows)["total"] == |rows|
    ensures Stats(rows)["total"] == SumValues(Stats(rows) - {"total"})
  {
    var m := GroupByStatus(rows);
    GroupCountsSumToRowCount(rows);
    CountStatusPositive(rows, "total");
    assert "total" !in m;
    AddThenRemove(m, "total", |rows|);
  }

  /** When every status is an allowed one, only allowed statuses and `"total"` appear, and the counts are consistent. */
  lemma StatsOfAllowedStatuses(rows: seq<Row>)
    requires forall row :: row in rows ==> row.status in Statuses
    ensures forall s :: s in Stats(rows) ==> s in Statuses || s == "total"
    ensures Stats(rows)["total"] == SumValues(Stats(rows) - {"total"})
  {
    assert |"total"| == 5;
    assert "total" !in Statuses;
    StatsConsistent(rows);
    var m := GroupByStatus(rows);
    forall s | s in m ensures s in Statuses {
      CountStatusPositive(rows, s);
      var row :| row in rows && row.status == s;
    }
    assert Stats(rows) == m["total" := |rows|];
  }
}
