/**
 * What each per-task route of app.py does to the one row it fetched, once the
 * row exists: the start, pause, end, delete and restore transitions, the
 * field update, and the display-order assignment of a reorder.
 */
module Lifecycle {
  import opened Wrappers
  import opened Dates
  import opened Models
  import opened Validation

  /** The columns the lifecycle routes own. */
  predicate SameLifecycle(a: Task, b: Task) {
    && a.status == b.status
    && a.actualStart == b.actualStart
    && a.actualEnd == b.actualEnd
    && a.deleteReason == b.deleteReason
    && a.displayOrder == b.displayOrder
  }

  /**
   * `start_task_route`: a completed task is left as it is (the route still
   * answers 200); any other task, deleted ones included, becomes doing and
   * keeps its first start time.
   */
  function Start(t: Task, now: DateTime): (r: Task)
    ensures t.status == Completed ==> r == t
    ensures t.status != Completed ==> r.status == Doing && r.updatedAt == now && r.actualStart.Some?
    ensures t.actualStart.Some? ==> r.actualStart == t.actualStart
    ensures t.actualStart.None? && t.status != Completed ==> r.actualStart == Some(now)
    ensures SameEntry(t, r) && r.actualEnd == t.actualEnd && r.deleteReason == t.deleteReason
    ensures r.displayOrder == t.displayOrder
    ensures Consistent(t) ==> Consistent(r)
  {
    if t.status == Completed then t
    else t.(actualStart := Some(t.actualStart.GetOr(now)), status := Doing, updatedAt := now)
  }

  /**
   * `pause_task_route`: refused unless the task is doing; otherwise it goes
   * back to todo, loses its end date and keeps its start date.
   */
  function Pause(t: Task, now: DateTime): (r: Option<Task>)
    ensures r.Some? <==> t.status == Doing
    ensures r.Some? ==> r.value.status == Todo && r.value.actualEnd.None? && r.value.updatedAt == now
    ensures r.Some? ==> r.value.actualStart == t.actualStart && r.value.deleteReason == t.deleteReason
    ensures r.Some? ==> SameEntry(t, r.value) && r.value.displayOrder == t.displayOrder
    ensures r.Some? && Consistent(t) ==> Consistent(r.value)
  {
    if t.status != Doing then None
    else Some(t.(status := Todo, actualEnd := None, updatedAt := now))
  }

  /**
   * `end_task_route`: a completed task is left as it is; any other task
   * becomes completed, ends now, and starts now unless it had started.
   */
  function End(t: Task, now: DateTime): (r: Task)
    ensures t.status == Completed ==> r == t
    ensures t.status != Completed ==> r.status == Completed && r.actualEnd == Some(now) && r.updatedAt == now
    ensures t.status != Completed ==> r.actualStart == Some(t.actualStart.GetOr(now))
    ensures Consistent(t) ==> r.actualStart.Some? && r.actualEnd.Some?
    ensures SameEntry(t, r) && r.deleteReason == t.deleteReason && r.displayOrder == t.displayOrder
    ensures Consistent(t) ==> Consistent(r)
  {
    if t.status == Completed then t
    else
      var started := if t.actualStart.None? then t.(actualStart := Some(now)) else t;
      started.(actualEnd := Some(now), status := Completed, updatedAt := now)
  }

  /**
   * `delete_task_route`: any task, already deleted or not, becomes deleted
   * with the given reason and ends now.
   */
  function Delete(t: Task, reason: Option<string>, now: DateTime): (r: Task)
    ensures r.status == Deleted && r.deleteReason == reason && r.actualEnd == Some(now) && r.updatedAt == now
    ensures !Active(r.status)
    ensures r.actualStart == t.actualStart && r.displayOrder == t.displayOrder && SameEntry(t, r)
    ensures Consistent(t) ==> Consistent(r)
  {
    t.(status := Deleted, deleteReason := reason, actualEnd := Some(now), updatedAt := now)
  }

  /**
   * `restore_task_route`: refused unless the task is completed or deleted;
   * otherwise it is todo again, with no end date and no delete reason, and
   * keeps its start date and its display order.
   */
  function Restore(t: Task, now: DateTime): (r: Option<Task>)
    ensures r.Some? <==> t.status == Completed || t.status == Deleted
    ensures r.Some? ==> r.value.status == Todo && r.value.actualEnd.None? && r.value.deleteReason.None?
    ensures r.Some? ==> r.value.actualStart == t.actualStart && r.value.displayOrder == t.displayOrder
    ensures r.Some? ==> SameEntry(t, r.value) && r.value.updatedAt == now
    ensures r.Some? && Consistent(t) ==> Consistent(r.value)
  {
    if t.status != Completed && t.status != Deleted then None
    else Some(t.(status := Todo, actualEnd := None, deleteReason := None, updatedAt := now))
  }

  /**
   * `update_task` once its checks passed: the entered columns take the
   * checked values, `is_not_main` keeps its old value when the request has
   * none, and the lifecycle columns stay as they were.
   */
  function Update(t: Task, f: Fields, isNotMain: Option<bool>, now: DateTime): (r: Task)
    ensures r.name == f.name && r.detail == f.detail && r.limitDate == f.limitDate
    ensures r.scheduledStart == f.scheduledStart && r.scheduledEnd == f.scheduledEnd
    ensures isNotMain.Some? ==> r.isNotMain == isNotMain.value
    ensures isNotMain.None? ==> r.isNotMain == t.isNotMain
    ensures r.updatedAt == now && r.id == t.id && r.createdAt == t.createdAt && SameLifecycle(t, r)
    ensures Consistent(t) && f.name != "" && f.scheduledStart.Some? == f.scheduledEnd.Some? ==> Consistent(r)
  {
    t.(name := f.name, detail := f.detail, limitDate := f.limitDate,
       scheduledStart := f.scheduledStart, scheduledEnd := f.scheduledEnd,
       isNotMain := isNotMain.GetOr(t.isNotMain), updatedAt := now)
  }

  /** One iteration of `update_task_order`: the task takes its position in the list as its order. */
  function Place(t: Task, position: int, now: DateTime): (r: Task)
    ensures r.displayOrder == position && r.updatedAt == now
    ensures SameEntry(t, r) && r.status == t.status && r.actualStart == t.actualStart
    ensures r.actualEnd == t.actualEnd && r.deleteReason == t.deleteReason
    ensures Consistent(t) ==> Consistent(r)
  {
    t.(displayOrder := position, updatedAt := now)
  }

  // ---- Sequences of route calls on one task ----

  /** A route call on one existing task. */
  datatype Op =
    | StartOp
    | PauseOp
    | EndOp
    | DeleteOp(reason: Option<string>)
    | RestoreOp
    | UpdateOp(req: TaskRequest)
    | PlaceOp(position: int)

  datatype Step = Step(op: Op, now: DateTime)

  /** The row after one route call; a refused call leaves it as it was. */
  function Apply(t: Task, s: Step): (r: Task)
    ensures r.id == t.id && r.createdAt == t.createdAt
    ensures t.actualStart.Some? ==> r.actualStart == t.actualStart
    ensures Consistent(t) ==> Consistent(r)
  {
    match s.op
    case StartOp => Start(t, s.now)
    case PauseOp => Pause(t, s.now).GetOr(t)
    case EndOp => End(t, s.now)
    case DeleteOp(reason) => Delete(t, reason, s.now)
    case RestoreOp => Restore(t, s.now).GetOr(t)
    case UpdateOp(req) =>
      (match Validate(req)
       case Accepted(f) => Update(t, f, req.isNotMain, s.now)
       case Rejected(_) => t)
    case PlaceOp(position) => Place(t, position, s.now)
  }

  /** The row after a sequence of route calls. */
  function Run(t: Task, steps: seq<Step>): Task
    decreases |steps|
  {
    if steps == [] then t else Run(Apply(t, steps[0]), steps[1..])
  }

  /** No sequence of route calls breaks the row invariant. */
  lemma {:induction false} RunKeepsConsistent(t: Task, steps: seq<Step>)
    requires Consistent(t)
    ensures Consistent(Run(t, steps))
    decreases |steps|
  {
    if steps != [] {
      RunKeepsConsistent(Apply(t, steps[0]), steps[1..]);
    }
  }

  /**
   * Once a task has started, no sequence of calls (start/pause cycles,
   * ending, deleting, restoring, editing) moves its start time.
   */
  lemma {:induction false} RunKeepsActualStart(t: Task, steps: seq<Step>)
    requires t.actualStart.Some?
    ensures Run(t, steps).actualStart == t.actualStart
    decreases |steps|
  {
    if steps != [] {
      RunKeepsActualStart(Apply(t, steps[0]), steps[1..]);
    }
  }

  /** A task keeps its id and its creation time for ever. */
  lemma {:induction false} RunKeepsIdentity(t: Task, steps: seq<Step>)
    ensures Run(t, steps).id == t.id && Run(t, steps).createdAt == t.createdAt
    decreases |steps|
  {
    if steps != [] {
      RunKeepsIdentity(Apply(t, steps[0]), steps[1..]);
    }
  }

  /**
   * Restoring a deleted task undoes the delete: it is todo with no reason and
   * no end date although delete had set both; a todo task comes back as it
   * was apart from its update time.
   */
  lemma DeleteThenRestore(t: Task, reason: Option<string>, deletedAt: DateTime, restoredAt: DateTime)
    ensures Delete(t, reason, deletedAt).actualEnd == Some(deletedAt)
    ensures Restore(Delete(t, reason, deletedAt), restoredAt).Some?
    ensures var r := Restore(Delete(t, reason, deletedAt), restoredAt).value;
      r.status == Todo && r.deleteReason.None? && r.actualEnd.None?
      && r.actualStart == t.actualStart && r.displayOrder == t.displayOrder && SameEntry(t, r)
    ensures t.status == Todo && t.actualEnd.None? && t.deleteReason.None? ==>
      Restore(Delete(t, reason, deletedAt), restoredAt) == Some(t.(updatedAt := restoredAt))
  {
  }

  /** Pausing right after starting a todo task returns it to todo, now marked as started. */
  lemma StartThenPause(t: Task, startedAt: DateTime, pausedAt: DateTime)
    requires t.status == Todo && Consistent(t)
    ensures Pause(Start(t, startedAt), pausedAt)
         == Some(t.(actualStart := Some(t.actualStart.GetOr(startedAt)), updatedAt := pausedAt))
  {
  }

  /**
   * A task ended and then restored is todo again, and remains marked as
   * started: at its first start, or at the moment it was ended.
   */
  lemma EndThenRestore(t: Task, endedAt: DateTime, restoredAt: DateTime)
    requires t.status != Completed
    ensures Restore(End(t, endedAt), restoredAt).Some?
    ensures var r := Restore(End(t, endedAt), restoredAt).value;
      r.status == Todo && r.actualEnd.None? && r.actualStart == Some(t.actualStart.GetOr(endedAt))
      && r.displayOrder == t.displayOrder && SameEntry(t, r)
  {
  }

  /**
   * Start is not refused on a deleted task: the task becomes doing and still
   * carries its end date and its delete reason.
   */
  lemma StartRevivesDeletedTask(t: Task, now: DateTime)
    requires t.status == Deleted && Consistent(t)
    ensures Start(t, now).status == Doing && Active(Start(t, now).status)
    ensures Start(t, now).actualEnd.Some? && Start(t, now).deleteReason == t.deleteReason
  {
  }
}
