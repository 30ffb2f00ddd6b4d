/**
 * The routes of app.py that write the `tasks` table, and the ones that read
 * it, as methods of one store: a table keyed by id and the id the next
 * insert receives. Every write route either commits its whole effect or,
 * on an error answer, leaves the table as it was.
 */
module Store {
  import opened Wrappers
  import opened Dates
  import opened Models
  import opened Validation
  import opened Lifecycle
  import opened Listing
  import opened Reorder

  /** The answer of a route, without the HTTP plumbing. */
  datatype Outcome =
    | Ok                 // 200
    | AlreadyCompleted   // 200 from start or end on a completed task, nothing written
    | Created(id: int)   // 201 with the new task's id
    | NotFound           // 404
    | BadRequest(why: Reason)  // 400

  /**
   * SQLite hands out ids from 1 upwards and rows are never removed (delete
   * is a status), so every key lies in [1, nextId) and is its row's id.
   * Every row satisfies the row invariant, and its dates are valid.
   */
  ghost predicate ValidTable(m: map<int, Task>, nextId: int) {
    && 1 <= nextId
    && WellKeyed(m, nextId)
    && forall id :: id in m ==> 1 <= id && Consistent(m[id]) && DatesValid(m[id])
  }

  /** Reordering at a valid time keeps the table valid. */
  lemma ReorderedKeepsValid(m: map<int, Task>, nextId: int, ids: seq<int>, now: DateTime)
    requires ValidTable(m, nextId) && Dates.Valid(now)
    ensures ValidTable(Reordered(m, ids, now), nextId)
  {
  }

  class TaskStore {
    var tasks: map<int, Task>
    var nextId: int

    /** The table is valid. */
    ghost predicate Valid()
      reads this
    {
      ValidTable(tasks, nextId)
    }

    /** An empty table, as `db.create_all()` leaves it. */
    constructor()
      ensures Valid() && tasks == map[] && nextId == 1
    {
      tasks := map[];
      nextId := 1;
    }

    /**
     * `add_task`: a rejected request writes nothing; an accepted one inserts
     * a todo task with display order 0 under a fresh id, `is_not_main`
     * defaulting to false.
     */
    method AddTask(req: TaskRequest, now: DateTime) returns (res: Outcome)
      requires Valid() && Dates.Valid(now)
      modifies this
      ensures Valid()
      ensures Validate(req).Rejected? ==>
        res == BadRequest(Validate(req).why) && tasks == old(tasks) && nextId == old(nextId)
      ensures Validate(req).Accepted? ==>
        var f := Validate(req).fields;
        && res == Created(old(nextId)) && old(nextId) !in old(tasks) && nextId == old(nextId) + 1
        && tasks == old(tasks)[old(nextId) := NewTask(old(nextId), f.name, f.detail, f.limitDate,
                                                       f.scheduledStart, f.scheduledEnd,
                                                       req.isNotMain.GetOr(false), now)]
    {
      match Validate(req)
      case Rejected(why) =>
        return BadRequest(why);
      case Accepted(f) =>
        var id := nextId;
        var task := NewTask(id, f.name, f.detail, f.limitDate, f.scheduledStart, f.scheduledEnd,
                            req.isNotMain.GetOr(false), now);
        tasks := tasks[id := task];
        nextId := nextId + 1;
        return Created(id);
    }

    /**
     * `update_task`: not found before any check; a rejected request writes
     * nothing; an accepted one rewrites the entered columns only.
     */
    method UpdateTask(id: int, req: TaskRequest, now: DateTime) returns (res: Outcome)
      requires Valid() && Dates.Valid(now)
      modifies this
      ensures Valid() && nextId == old(nextId)
      ensures id !in old(tasks) ==> res == NotFound && tasks == old(tasks)
      ensures id in old(tasks) && Validate(req).Rejected? ==>
        res == BadRequest(Validate(req).why) && tasks == old(tasks)
      ensures id in old(tasks) && Validate(req).Accepted? ==>
        res == Ok && tasks == old(tasks)[id := Update(old(tasks)[id], Validate(req).fields, req.isNotMain, now)]
    {
      if id !in tasks {
        return NotFound;
      }
      match Validate(req)
      case Rejected(why) =>
        return BadRequest(why);
      case Accepted(f) =>
        var task := tasks[id];
        task := task.(name := f.name, detail := f.detail, limitDate := f.limitDate);
        task := task.(scheduledStart := f.scheduledStart, scheduledEnd := f.scheduledEnd);
        task := task.(isNotMain := req.isNotMain.GetOr(task.isNotMain), updatedAt := now);
        tasks := tasks[id := task];
        return Ok;
    }

    /** `delete_task_route`: marks any existing task deleted, whatever its status. */
    method DeleteTask(id: int, reason: Option<string>, now: DateTime) returns (res: Outcome)
      requires Valid() && Dates.Valid(now)
      modifies this
      ensures Valid() && nextId == old(nextId)
      ensures id !in old(tasks) ==> res == NotFound && tasks == old(tasks)
      ensures id in old(tasks) ==> res == Ok && tasks == old(tasks)[id := Delete(old(tasks)[id], reason, now)]
    {
      if id !in tasks {
        return NotFound;
      }
      var task := tasks[id];
      task := task.(status := Deleted, deleteReason := reason);
      task := task.(actualEnd := Some(now), updatedAt := now);
      tasks := tasks[id := task];
      return Ok;
    }

    /** `start_task_route`: a completed task is answered without a write. */
    method StartTask(id: int, now: DateTime) returns (res: Outcome)
      requires Valid() && Dates.Valid(now)
      modifies this
      ensures Valid() && nextId == old(nextId)
      ensures id !in old(tasks) ==> res == NotFound && tasks == old(tasks)
      ensures id in old(tasks) && old(tasks)[id].status == Completed ==>
        res == AlreadyCompleted && tasks == old(tasks)
      ensures id in old(tasks) && old(tasks)[id].status != Completed ==>
        res == Ok && tasks == old(tasks)[id := Start(old(tasks)[id], now)]
    {
      if id !in tasks {
        return NotFound;
      }
      var task := tasks[id];
      if task.status == Completed {
        return AlreadyCompleted;
      }
      if task.actualStart.None? {
        task := task.(actualStart := Some(now));
      }
      task := task.(status := Doing, updatedAt := now);
      tasks := tasks[id := task];
      return Ok;
    }

    /** `pause_task_route`: only a doing task can be paused. */
    method PauseTask(id: int, now: DateTime) returns (res: Outcome)
      requires Valid() && Dates.Valid(now)
      modifies this
      ensures Valid() && nextId == old(nextId)
      ensures id !in old(tasks) ==> res == NotFound && tasks == old(tasks)
      ensures id in old(tasks) && old(tasks)[id].status != Doing ==>
        res == BadRequest(NotDoing) && tasks == old(tasks)
      ensures id in old(tasks) && old(tasks)[id].status == Doing ==>
        res == Ok && tasks == old(tasks)[id := Pause(old(tasks)[id], now).value]
    {
      if id !in tasks {
        return NotFound;
      }
      var task := tasks[id];
      if task.status != Doing {
        return BadRequest(NotDoing);
      }
      task := task.(status := Todo, actualEnd := None, updatedAt := now);
      tasks := tasks[id := task];
      return Ok;
    }

    /** `end_task_route`: a completed task is answered without a write. */
    method EndTask(id: int, now: DateTime) returns (res: Outcome)
      requires Valid() && Dates.Valid(now)
      modifies this
      ensures Valid() && nextId == old(nextId)
      ensures id !in old(tasks) ==> res == NotFound && tasks == old(tasks)
      ensures id in old(tasks) && old(tasks)[id].status == Completed ==>
        res == AlreadyCompleted && tasks == old(tasks)
      ensures id in old(tasks) && old(tasks)[id].status != Completed ==>
        res == Ok && tasks == old(tasks)[id := End(old(tasks)[id], now)]
    {
      if id !in tasks {
        return NotFound;
      }
      var task := tasks[id];
      if task.status == Completed {
        return AlreadyCompleted;
      }
      if task.actualStart.None? {
        task := task.(actualStart := Some(now));
      }
      task := task.(actualEnd := Some(now), status := Completed, updatedAt := now);
      tasks := tasks[id := task];
      return Ok;
    }

    /** `restore_task_route`: only a completed or deleted task can be restored. */
    method RestoreTask(id: int, now: DateTime) returns (res: Outcome)
      requires Valid() && Dates.Valid(now)
      modifies this
      ensures Valid() && nextId == old(nextId)
      ensures id !in old(tasks) ==> res == NotFound && tasks == old(tasks)
      ensures id in old(tasks) && Restore(old(tasks)[id], now).None? ==>
        res == BadRequest(NotRestorable) && tasks == old(tasks)
      ensures id in old(tasks) && Restore(old(tasks)[id], now).Some? ==>
        res == Ok && tasks == old(tasks)[id := Restore(old(tasks)[id], now).value]
    {
      if id !in tasks {
        return NotFound;
      }
      var task := tasks[id];
      if task.status != Completed && task.status != Deleted {
        return BadRequest(NotRestorable);
      }
      task := task.(status := Todo, actualEnd := None, deleteReason := None, updatedAt := now);
      tasks := tasks[id := task];
      return Ok;
    }

    /**
     * `update_task_order`: a missing or empty list is refused; otherwise the
     * loop gives each listed task its position as display order. The loop
     * works on a pending copy that is kept only when every id was found,
     * the all-or-nothing behaviour the nested transaction is meant to give.
     */
    method UpdateTaskOrder(orderedIds: Option<seq<int>>, now: DateTime) returns (res: Outcome)
      requires Valid() && Dates.Valid(now)
      modifies this
      ensures Valid() && nextId == old(nextId)
      ensures orderedIds.None? || orderedIds.value == [] ==>
        res == BadRequest(InvalidOrderPayload) && tasks == old(tasks)
      ensures orderedIds.Some? && orderedIds.value != [] && !AllKnown(old(tasks), orderedIds.value) ==>
        res == NotFound && tasks == old(tasks)
      ensures orderedIds.Some? && orderedIds.value != [] && AllKnown(old(tasks), orderedIds.value) ==>
        res == Ok && tasks == Reordered(old(tasks), orderedIds.value, now)
    {
      if orderedIds.None? || orderedIds.value == [] {
        return BadRequest(InvalidOrderPayload);
      }
      var ids := orderedIds.value;
      var pending := tasks;
      var i := 0;
      assert ids[..0] == [];
      while i < |ids|
        invariant 0 <= i <= |ids|
        invariant unchanged(this)
        invariant forall k :: 0 <= k < i ==> ids[k] in tasks
        invariant pending == Reordered(tasks, ids[..i], now)
      {
        var id := ids[i];
        if id !in pending {
          assert id !in tasks;
          return NotFound;
        }
        ReorderedSnoc(tasks, ids[..i], id, now);
        PrefixSnoc(ids, i);
        var task := pending[id];
        task := task.(displayOrder := i, updatedAt := now);
        pending := pending[id := task];
        i := i + 1;
      }
      assert ids[..i] == ids;
      ReorderedKeepsValid(tasks, nextId, ids, now);
      tasks := pending;
      return Ok;
    }

    /** `get_tasks`: the active tasks in the order `sort_by` asks for. */
    method GetTasks(sortBy: string) returns (r: seq<Task>)
      requires Valid()
      ensures r == ActiveTasks(tasks, nextId, sortBy)
      ensures forall t :: t in r <==> t.id in tasks && tasks[t.id] == t && Active(t.status)
    {
      r := ActiveTasks(tasks, nextId, sortBy);
      forall t ensures t in r <==> t.id in tasks && tasks[t.id] == t && Active(t.status) {
        assert t in r <==> multiset(r)[t] > 0;
      }
    }

    /** `get_completed_tasks`: the completed tasks, most recently ended first. */
    method GetCompletedTasks() returns (r: seq<Task>)
      requires Valid()
      ensures r == CompletedTasks(tasks, nextId)
      ensures forall t :: t in r <==> t.id in tasks && tasks[t.id] == t && t.status == Completed
    {
      r := CompletedTasks(tasks, nextId);
      forall t ensures t in r <==> t.id in tasks && tasks[t.id] == t && t.status == Completed {
        assert t in r <==> multiset(r)[t] > 0;
      }
    }

    /** `get_deleted_tasks`: the deleted tasks, most recently updated first. */
    method GetDeletedTasks() returns (r: seq<Task>)
      requires Valid()
      ensures r == DeletedTasks(tasks, nextId)
      ensures forall t :: t in r <==> t.id in tasks && tasks[t.id] == t && t.status == Deleted
    {
      r := DeletedTasks(tasks, nextId);
      forall t ensures t in r <==> t.id in tasks && tasks[t.id] == t && t.status == Deleted {
        assert t in r <==> multiset(r)[t] > 0;
      }
    }
  }
}
