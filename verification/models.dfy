/** The task record of models.py. */
module Models {
  import opened Wrappers

  /** A calendar date with no time part. Only equality and order matter, so a day number will do. */
  type Date = int

  /**
   * A task. `id` stays unset until the store assigns one. The source annotates `description`
   * as text but nothing stops a caller from passing `None` there; the table's NOT NULL
   * constraint is the only guard, so the record keeps that possibility.
   */
  datatype Task = Task(
    id: Option<int>,
    description: Option<string>,
    status: string,
    priority: string,
    category: string,
    dueDate: Option<Date>,
    createdAt: Option<Date>)

  /** The status values the source's comments and the command line allow; nothing enforces them. */
  const Statuses: set<string> := {"todo", "in-progress", "done"}

  /** The priority values the source's comments and the command line allow; nothing enforces them. */
  const Priorities: set<string> := {"low", "medium", "high"}

  /** The record built with no arguments: every field at its declared default. */
  const Default: Task := Task(None, Some(""), "todo", "medium", "general", None, None)

  /** A freshly built record has no id, no due date and no creation date, and its status and priority are allowed values. */
  lemma DefaultsAreUnsetOrAllowed()
    ensures Default.id.None? && Default.dueDate.None? && Default.createdAt.None?
    ensures Default.description == Some("") && Default.category == "general"
    ensures Default.status in Statuses && Default.priority in Priorities
  {
  }
}
