/** The `tasks` table of models.py: one row per task, with its columns' nullability and defaults. */
module Models {
  import opened Wrappers
  import opened Dates

  /** The four values the `status` column takes. */
  datatype Status = Todo | Doing | Completed | Deleted

  /**
   * One row. A non-nullable column has a plain type; a nullable one is an Option.
   * `detail` and `delete_reason` are TEXT; the five date columns are DATETIME.
   */
  datatype Task = Task(
    id: int,
    name: string,
    detail: Option<string>,
    limitDate: DateTime,
    scheduledStart: Option<DateTime>,
    scheduledEnd: Option<DateTime>,
    actualStart: Option<DateTime>,
    actualEnd: Option<DateTime>,
    displayOrder: int,
    isNotMain: bool,
    status: Status,
    deleteReason: Option<string>,
    createdAt: DateTime,
    updatedAt: DateTime)

  /** The statuses the active list shows. */
  predicate Active(s: Status) {
    s == Todo || s == Doing
  }

  /**
   * What every row written by the routes satisfies: a name, both scheduled
   * dates or neither, both actual dates once completed, an end date once
   * deleted and none while todo, and an end date without a start date only
   * on a task deleted before it was ever started.
   */
  predicate Consistent(t: Task) {
    && t.name != ""
    && t.scheduledStart.Some? == t.scheduledEnd.Some?
    && (t.status == Completed ==> t.actualStart.Some? && t.actualEnd.Some?)
    && (t.status == Deleted ==> t.actualEnd.Some?)
    && (t.status == Todo ==> t.actualEnd.None?)
    && (t.actualEnd.Some? && t.actualStart.None? ==> t.status == Deleted)
  }

  /**
   * Every date column holds a valid timestamp: each is either parsed by
   * `parse_datetime` or taken from the clock.
   */
  predicate DatesValid(t: Task) {
    && Valid(t.limitDate) && Valid(t.createdAt) && Valid(t.updatedAt)
    && (t.scheduledStart.Some? ==> Valid(t.scheduledStart.value))
    && (t.scheduledEnd.Some? ==> Valid(t.scheduledEnd.value))
    && (t.actualStart.Some? ==> Valid(t.actualStart.value))
    && (t.actualEnd.Some? ==> Valid(t.actualEnd.value))
  }

  /** The columns a user enters; no lifecycle route touches them. */
  predicate SameEntry(a: Task, b: Task) {
    && a.id == b.id
    && a.name == b.name
    && a.detail == b.detail
    && a.limitDate == b.limitDate
    && a.scheduledStart == b.scheduledStart
    && a.scheduledEnd == b.scheduledEnd
    && a.isNotMain == b.isNotMain
    && a.createdAt == b.createdAt
  }

  /**
   * `Task(name=..., detail=..., limit_date=..., scheduled_start_date=...,
   * scheduled_end_date=..., is_not_main=...)` committed at `now` under key `id`:
   * the columns left out take their model defaults.
   */
  function NewTask(id: int, name: string, detail: Option<string>, limitDate: DateTime,
                   scheduledStart: Option<DateTime>, scheduledEnd: Option<DateTime>,
                   isNotMain: bool, now: DateTime): (t: Task)
    ensures t.id == id && t.name == name && t.detail == detail && t.limitDate == limitDate
    ensures t.scheduledStart == scheduledStart && t.scheduledEnd == scheduledEnd && t.isNotMain == isNotMain
    ensures t.status == Todo && Active(t.status)
    ensures t.displayOrder == 0
    ensures t.actualStart.None? && t.actualEnd.None? && t.deleteReason.None?
    ensures t.createdAt == now && t.updatedAt == now
    ensures Consistent(t) <==> name != "" && scheduledStart.Some? == scheduledEnd.Some?
  {
    Task(id, name, detail, limitDate, scheduledStart, scheduledEnd, None, None,
         0, isNotMain, Todo, None, now, now)
  }
}
