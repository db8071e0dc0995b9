/**
 * The task store of database.py: one connection to the database file and the `tasks` table
 * behind it, with the statements the module runs against it. The connection and cursor the
 * source keeps in module globals become the fields of one object.
 */
module Database {
  import opened Wrappers
  import opened Models
  import opened SqlText
  import opened Tables

  /** What the database file holds when the process connects to it. */
  datatype DbFile =
    | NoTable                                        // a new file, or one without `tasks`
    | TasksTable(rows: seq<Row>, lastId: int)        // an existing table and its AUTOINCREMENT counter

  class Store {
    /** Whether the `tasks` table exists yet. */
    var hasTable: bool
    /** The rows of `tasks`, in rowid order. */
    var rows: seq<Row>
    /** The table's AUTOINCREMENT counter: the largest id ever issued, whether or not its row still exists. */
    var lastId: int

    /** The table is well formed, and a missing table holds nothing. */
    ghost predicate Valid()
      reads this
    {
      && WellFormed(rows, lastId)
      && (!hasTable ==> rows == [] && lastId == 0)
    }

    /** Connecting to the database file (database.py opens it when the module is imported). */
    constructor Connect(file: DbFile)
      requires file.TasksTable? ==> WellFormed(file.rows, file.lastId)
      ensures Valid()
      ensures hasTable == file.TasksTable?
      ensures file.TasksTable? ==> rows == file.rows && lastId == file.lastId
    {
      match file
      case NoTable =>
        hasTable, rows, lastId := false, [], 0;
      case TasksTable(stored, counter) =>
        hasTable, rows, lastId := true, stored, counter;
    }

    /**
     * `CREATE TABLE IF NOT EXISTS tasks (...)`: creates an empty table with its counter at
     * zero when there is none, and otherwise leaves every row and the counter as they were.
     */
    method CreateTable()
      requires Valid()
      modifies this
      ensures Valid() && hasTable
      ensures old(hasTable) ==> rows == old(rows) && lastId == old(lastId)
      ensures !old(hasTable) ==> rows == [] && lastId == 0
    {
      if !hasTable {
        hasTable, rows, lastId := true, [], 0;
      }
    }

    /**
     * add_task: inserts one row holding the record's description, status, priority, category
     * and due date, with `created_at` set to `today` and a fresh id one above the counter.
     * The record's own id and creation date are ignored. When the counter is exhausted or the
     * description is NULL, SQLite raises and neither the rows nor the counter change.
     */
    method AddTask(task: Task, today: Date) returns (outcome: Outcome<StoreError>)
      requires Valid() && hasTable
      modifies this
      ensures Valid() && hasTable
      ensures outcome == if old(lastId) == MaxRowId then Fail(DatabaseFull)
                         else if task.description.None? then Fail(NotNull(Description))
                         else Pass
      ensures outcome.Fail? ==> rows == old(rows) && lastId == old(lastId)
      ensures outcome.Pass? ==> && lastId == old(lastId) + 1
                                && rows == old(rows) + [NewRow(lastId, task, today)]
                                && forall row :: row in old(rows) ==> row.id < lastId
    {
      if lastId == MaxRowId {
        return Fail(DatabaseFull);
      }
      if task.description.None? {
        return Fail(NotNull(Description));
      }
      AppendKeepsWellFormed(rows, lastId, NewRow(lastId + 1, task, today));
      rows := rows + [NewRow(lastId + 1, task, today)];
      lastId := lastId + 1;
      outcome := Pass;
    }

    /**
     * get_all_tasks: the records of the rows whose status is the filter, or of every row when
     * the filter is missing or empty, in ascending id order; no match gives an empty list.
     * This is the intended behaviour: database.py:38 never calls `c.fetchall`, so the source
     * as written fails when it iterates the method object.
     */
    function GetAllTasks(filterStatus: Option<string>): (r: seq<Task>)
      reads this
      requires Valid() && hasTable
      ensures forall row :: row in rows ==>
        (TaskOf(row) in r <==> filterStatus.None? || filterStatus.value == "" || row.status == filterStatus.value)
      ensures forall t :: t in r ==> exists row :: row in rows && TaskOf(row) == t
      ensures AscendingIds(r)
    {
      var selected := Where(rows, ListedBy(filterStatus));
      ListedTasks(rows, selected, ListedBy(filterStatus));
      Tasks(selected)
    }

    /**
     * update_task: with no column named, the statement `UPDATE tasks SET  WHERE id = ?` does
     * not parse and nothing changes. An id outside the 64-bit range cannot be bound, and
     * nothing changes either. Otherwise the row with the id gets the named columns' new
     * values and keeps the rest; every other row, the counter, and the table when no row
     * has that id, stay as they were.
     */
    method UpdateTask(taskId: int, updates: map<Column, Value>) returns (outcome: Outcome<StoreError>)
      requires Valid() && hasTable && WellTyped(updates)
      modifies this
      ensures Valid() && hasTable && lastId == old(lastId)
      ensures outcome == if updates == map[] then Fail(SyntaxError)
                         else if !Bindable(taskId) then Fail(TooLarge)
                         else Pass
      ensures outcome.Fail? ==> rows == old(rows)
      ensures outcome.Pass? ==> rows == UpdateWhereId(old(rows), taskId, updates)
      ensures (forall row :: row in old(rows) ==> row.id != taskId) ==> rows == old(rows)
    {
      if updates == map[] {
        return Fail(SyntaxError);
      }
      if !Bindable(taskId) {
        return Fail(TooLarge);
      }
      UpdateKeepsWellFormed(rows, lastId, taskId, updates);
      if forall row :: row in rows ==> row.id != taskId {
        UpdateOfUnknownIdIsNoOp(rows, taskId, updates);
      }
      rows := UpdateWhereId(rows, taskId, updates);
      outcome := Pass;
    }

    /**
     * delete_task as written: `DELETE FROM tasks WHERE description LIKE ?` with the id bound
     * as the pattern. An id outside the 64-bit range cannot be bound, and nothing changes.
     * Otherwise the statement removes exactly the rows whose description is the id's decimal
     * text and keeps the others in order; then `c.commit` looks up `commit` on the cursor,
     * which has no such attribute, so every call ends in an error. The counter is untouched.
     */
    method DeleteTask(taskId: int) returns (outcome: Outcome<StoreError>)
      requires Valid() && hasTable
      modifies this
      ensures Valid() && hasTable && lastId == old(lastId)
      ensures outcome == if Bindable(taskId) then Fail(NoCommitOnCursor) else Fail(TooLarge)
      ensures !Bindable(taskId) ==> rows == old(rows)
      ensures Bindable(taskId) ==> rows == Where(old(rows), DescriptionNotLike(taskId))
      ensures forall row :: row in rows <==>
        row in old(rows) && (!Bindable(taskId) || row.description != DecimalText(taskId))
    {
      if !Bindable(taskId) {
        return Fail(TooLarge);
      }
      DeleteTaskRemovesDescriptionMatches(rows, taskId);
      rows := Where(rows, DescriptionNotLike(taskId));
      outcome := Fail(NoCommitOnCursor);
    }

    /**
     * The delete the source evidently intends: `DELETE FROM tasks WHERE id = ?` followed by
     * `conn.commit()`. Removes the row with that id, if any, and keeps every other row in
     * order; the counter is untouched, so the id is never issued again. An id outside the
     * 64-bit range cannot be bound, and nothing changes.
     */
    method DeleteById(taskId: int) returns (outcome: Outcome<StoreError>)
      requires Valid() && hasTable
      modifies this
      ensures Valid() && hasTable && lastId == old(lastId)
      ensures outcome == if Bindable(taskId) then Pass else Fail(TooLarge)
      ensures outcome.Fail? ==> rows == old(rows)
      ensures outcome.Pass? ==> rows == Where(old(rows), IdIsNot(taskId))
      ensures forall row :: row in rows <==> row in old(rows) && row.id != taskId
    {
      if !Bindable(taskId) {
        return Fail(TooLarge);
      }
      DeleteByIdRemovesExactlyThatRow(rows, lastId, taskId);
      rows := Where(rows, IdIsNot(taskId));
      outcome := Pass;
    }

    /**
     * search_tasks: the records of exactly the rows whose description is LIKE `%keyword%`,
     * each once. No order is promised (the statement has no ORDER BY).
     */
    function SearchTasks(keyword: string): (r: seq<Task>)
      reads this
      requires Valid() && hasTable
      ensures |r| <= |rows|
      ensures forall i, j :: 0 <= i < j < |r| ==> r[i].id != r[j].id
      ensures forall row :: row in rows ==> (TaskOf(row) in r <==> Like(row.description, "%" + keyword + "%"))
      ensures forall t :: t in r ==> exists row :: row in rows && TaskOf(row) == t
    {
      var selected := Where(rows, Mentions(keyword));
      ListedTasks(rows, selected, Mentions(keyword));
      Tasks(selected)
    }

    /**
     * get_stats as intended: each status present in the table mapped to its row count, and
     * `"total"` mapped to the number of rows. The source as written fails: database.py:57 is
     * not valid SQL, database.py:60 stores a row instead of a count, and database.py:61
     * returns an undefined name.
     */
    function GetStats(): (r: map<string, nat>)
      reads this
      requires Valid() && hasTable
      ensures "total" in r && r["total"] == |rows|
      ensures forall s :: s != "total" ==> (s in r <==> exists row :: row in rows && row.status == s)
      ensures forall s :: s != "total" && s in r ==> r[s] == CountStatus(rows, s)
    {
      StatusesPresent(rows);
      Stats(rows)
    }
  }

  /** The records of a WHERE selection are the records of exactly the selected rows, in id order. */
  lemma ListedTasks(rows: seq<Row>, selected: seq<Row>, keep: Row -> bool)
    requires StrictlyAscending(rows) && selected == Where(rows, keep)
    ensures forall row :: row in rows ==> (TaskOf(row) in Tasks(selected) <==> keep(row))
    ensures forall t :: t in Tasks(selected) ==> exists row :: row in rows && TaskOf(row) == t
    ensures AscendingIds(Tasks(selected))
  {
    forall row | row in rows ensures TaskOf(row) in Tasks(selected) <==> keep(row) {
      TasksMembership(selected, row);
    }
    TasksComeFromRows(selected);
    TasksAscending(selected);
  }

  /** The statuses that get_stats reports besides `"total"` are exactly those some row has. */
  lemma StatusesPresent(rows: seq<Row>)
    ensures forall s :: s != "total" ==> (s in Stats(rows) <==> exists row :: row in rows && row.status == s)
  {
    forall s | s != "total" ensures s in Stats(rows) <==> exists row :: row in rows && row.status == s {
      CountStatusPositive(rows, s);
    }
  }
}

/**
 * A walk through the store from an empty database file: what the contracts alone let a caller
 * conclude about ids, updates and the two deletes.
 */
module Walkthrough {
  import opened Wrappers
  import opened Models
  import opened SqlText
  import opened Tables
  import opened Database

  method AddMarkDelete(today: Date)
  {
    var store := new Store.Connect(NoTable);
    store.CreateTable();
    var milk := Default.(description := Some("Buy milk"), priority := "low", category := "home");
    var bug := Default.(description := Some("Fix bug"), priority := "high", category := "work", dueDate := Some(today - 1));
    var outcome := store.AddTask(milk, today);
    assert outcome == Pass && store.lastId == 1;
    outcome := store.AddTask(bug, today);
    assert outcome == Pass && store.lastId == 2;
    assert store.rows == [NewRow(1, milk, today), NewRow(2, bug, today)];

    // `mark 2 done`
    var marking := map[Status := Text("done")];
    assert Status in marking;
    outcome := store.UpdateTask(2, marking);
    assert outcome == Pass;
    assert store.rows[1].status == "done" by {
      assert ColumnValue(store.rows[1], Status) == Text("done");
    }

    // delete_task(1) as written looks for a description "1", keeps task 1, and then fails
    var before := store.rows;
    outcome := store.DeleteTask(1);
    assert outcome == Fail(NoCommitOnCursor);
    assert before[0] in store.rows by {
      assert |DecimalText(1)| == 1;
    }

    // the intended delete removes it, and the next insert does not reuse its id
    outcome := store.DeleteById(1);
    assert outcome == Pass;
    outcome := store.AddTask(milk, today);
    assert outcome == Pass && store.lastId == 3;
    assert forall row :: row in store.rows ==> row.id != 1;
  }
}
