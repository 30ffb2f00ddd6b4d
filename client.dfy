/**
 * The decisions static/main.js takes on its own: what a date input shows,
 * which Gantt view mode a ctrl-wheel step selects, which edit buttons are
 * offered, which route the start/stop button calls, what a submission sends,
 * and what the details popup shows. Each is related to the server functions
 * it is meant to agree with.
 */
module Client {
  import opened Wrappers
  import opened Dates
  import opened Models
  import opened Validation
  import opened Lifecycle

  // ---- Task JSON as the client holds it ----

  /** `isoformat()` of a nullable date column. */
  function Iso(d: Option<DateTime>): (r: Option<string>)
    requires d.Some? ==> Valid(d.value)
    ensures r.Some? <==> d.Some?
    ensures r.Some? ==> |r.value| == 19 && r.value[..10] == DateText(d.value)
  {
    if d.None? then None else Some(IsoFormat(d.value))
  }

  /** Both actual dates can be rendered. */
  predicate RenderableDates(t: Task) {
    (t.actualStart.Some? ==> Valid(t.actualStart.value)) && (t.actualEnd.Some? ==> Valid(t.actualEnd.value))
  }

  /**
   * The part of `task_to_dict`'s output the client decides on. A status the
   * client does not know, or a missing `status` key, is None: JavaScript's
   * `undefined` compares unequal to every status string.
   */
  datatype TaskDetails = TaskDetails(
    id: int,
    status: Option<Status>,
    actualStart: Option<string>,
    actualEnd: Option<string>,
    deleteReason: Option<string>)

  function Details(t: Task): (d: TaskDetails)
    requires RenderableDates(t)
    ensures d.id == t.id && d.status == Some(t.status) && d.deleteReason == t.deleteReason
    ensures d.actualStart.Some? <==> t.actualStart.Some?
    ensures d.actualEnd.Some? <==> t.actualEnd.Some?
  {
    TaskDetails(t.id, Some(t.status), Iso(t.actualStart), Iso(t.actualEnd), t.deleteReason)
  }

  // ---- formatDateTimeForInput ----

  /** The date part of a timestamp string, "" for null or "". */
  function FormatDateTimeForInput(s: Option<string>): (r: string)
    ensures s.None? || s.value == "" ==> r == ""
    ensures s.Some? ==> |r| == (if |s.value| < 10 then |s.value| else 10) && r == s.value[..|r|]
  {
    if s.None? || s.value == "" then ""
    else if |s.value| < 10 then s.value  // `substring` clamps its end to the length
    else s.value[..10]
  }

  /**
   * The edit form shows a stored date as its day only, and `parse_datetime`
   * reads that day back as midnight: saving the form unchanged drops the
   * time of day of every date it holds.
   */
  lemma EditFormKeepsDayOnly(t: DateTime)
    requires Valid(t)
    ensures FormatDateTimeForInput(Some(IsoFormat(t))) == DateText(t)
    ensures ParseDatetime(Some(FormatDateTimeForInput(Some(IsoFormat(t))))) == Some(Midnight(t))
  {
    ParseDateText(t);
  }

  // ---- Ctrl-wheel zoom over the Gantt view modes ----

  const ViewModes: seq<string> := ["Quarter Day", "Half Day", "Day", "Week", "Month"]

  /** `Array.prototype.indexOf`: the first position of `x`, or -1. */
  function IndexOf(s: seq<string>, x: string): (k: int)
    ensures -1 <= k < |s|
    ensures k == -1 <==> x !in s
    ensures k >= 0 ==> s[k] == x && forall j :: 0 <= j < k ==> s[j] != x
  {
    if s == [] then -1
    else if s[0] == x then 0
    else
      var k := IndexOf(s[1..], x);
      if k == -1 then -1 else k + 1
  }

  /** The position the wheel step starts from: the current mode's, or 'Week''s when the mode is not listed. */
  function Origin(current: string): (k: nat)
    ensures k < |ViewModes|
    ensures current in ViewModes ==> ViewModes[k] == current
    ensures current !in ViewModes ==> ViewModes[k] == "Week"
  {
    var k := IndexOf(ViewModes, current);
    if k == -1 then IndexOf(ViewModes, "Week") else k
  }

  /**
   * The position the wheel step selects: one finer for an upward turn
   * (deltaY < 0), one coarser otherwise, never past either end.
   */
  function ZoomTarget(current: string, deltaY: int): (k: nat)
    ensures k < |ViewModes|
    ensures deltaY < 0 ==> k == (if Origin(current) == 0 then 0 else Origin(current) - 1)
    ensures deltaY >= 0 ==> k == (if Origin(current) == |ViewModes| - 1 then Origin(current) else Origin(current) + 1)
  {
    var k := Origin(current) + (if deltaY < 0 then -1 else 1);
    if k < 0 then 0 else if k >= |ViewModes| then |ViewModes| - 1 else k
  }

  /**
   * The wheel handler: the view mode to switch to, or None when the step
   * lands on the mode already shown.
   */
  method ZoomOnWheel(current: string, deltaY: int) returns (next: Option<string>)
    ensures next.None? <==> ViewModes[ZoomTarget(current, deltaY)] == current
    ensures next.Some? ==> next.value == ViewModes[ZoomTarget(current, deltaY)]
  {
    var index := IndexOf(ViewModes, current);
    if index == -1 {
      index := IndexOf(ViewModes, "Week");
    }
    if deltaY < 0 {
      index := index - 1;
    } else {
      index := index + 1;
    }
    if index < 0 {
      index := 0;
    } else if index >= |ViewModes| {
      index := |ViewModes| - 1;
    }
    var mode := ViewModes[index];
    if mode != current {
      next := Some(mode);
    } else {
      next := None;
    }
  }

  /** Turning the wheel past the finest or the coarsest mode changes nothing. */
  lemma ZoomStopsAtEnds(deltaY: int)
    ensures deltaY < 0 ==> ViewModes[ZoomTarget("Quarter Day", deltaY)] == "Quarter Day"
    ensures deltaY >= 0 ==> ViewModes[ZoomTarget("Month", deltaY)] == "Month"
  {
    assert ViewModes[0] == "Quarter Day";
    assert ViewModes[4] == "Month";
  }

  /** Away from the ends, one step changes the mode; an unlisted mode always becomes 'Day' or 'Month'. */
  lemma ZoomMovesInside(current: string, deltaY: int)
    requires current != "Quarter Day" || deltaY >= 0
    requires current != "Month" || deltaY < 0
    ensures ViewModes[ZoomTarget(current, deltaY)] != current
    ensures current !in ViewModes ==> ViewModes[ZoomTarget(current, deltaY)] == (if deltaY < 0 then "Day" else "Month")
  {
    var o := Origin(current);
    if current !in ViewModes {
      assert ViewModes[o] == "Week";
      assert o == 3;
    } else {
      assert ViewModes[o] == current;
      assert 0 < o || deltaY >= 0;
      assert o < 4 || deltaY < 0;
    }
  }

  /** Zooming in one step and out again returns to the mode shown, unless the first step was clamped. */
  lemma ZoomInThenOut(current: string)
    requires current in ViewModes && current != "Quarter Day"
    ensures ViewModes[ZoomTarget(ViewModes[ZoomTarget(current, -1)], 1)] == current
  {
    var o := Origin(current);
    assert ViewModes[o] == current && o != 0;
    var finer := ViewModes[o - 1];
    assert finer in ViewModes;
    assert Origin(finer) == o - 1;
  }

  // ---- Edit popup buttons ----

  datatype StartLabel = StartText | StopText

  datatype Buttons = Buttons(startLabel: StartLabel, startDisabled: bool, endDisabled: bool, deleteDisabled: bool)

  /** `updateEditActionButtonsState`. */
  function EditButtons(status: Option<Status>): (b: Buttons)
    ensures b.startLabel == StopText <==> status == Some(Doing)
    ensures b.startDisabled <==> status == Some(Completed)
    ensures b.endDisabled <==> status == Some(Completed)
    ensures b.deleteDisabled <==> status == Some(Deleted)
  {
    var doing := status == Some(Doing);
    Buttons(if doing then StopText else StartText,
            !doing && status == Some(Completed),
            status == Some(Completed),
            status == Some(Deleted))
  }

  datatype Route = StartRoute | PauseRoute

  /** `handleStartStopTaskClick`: pause a doing task, start anything else. */
  function StartStopRoute(status: Option<Status>): (r: Route)
    ensures r == PauseRoute <==> EditButtons(status).startLabel == StopText
  {
    if status == Some(Doing) then PauseRoute else StartRoute
  }

  /**
   * The buttons offered for a stored task are those whose route does
   * something: "Stop" is offered exactly when pause is accepted, an enabled
   * "Start" or "End" is one whose call changes the task's status, and a
   * disabled one is a call the server would answer without a write.
   */
  lemma ButtonsMatchServer(t: Task, now: DateTime)
    ensures var b := EditButtons(Some(t.status));
      && (b.startLabel == StopText <==> Pause(t, now).Some?)
      && (b.startLabel == StartText && !b.startDisabled <==> Start(t, now).status != t.status)
      && (b.startDisabled ==> Start(t, now) == t)
      && (b.endDisabled <==> End(t, now).status == t.status)
      && (b.endDisabled ==> End(t, now) == t)
  {
  }

  // ---- Submit handlers ----

  datatype Submission = Blocked | Sent(scheduledStart: Option<string>, scheduledEnd: Option<string>)

  /**
   * The scheduled-date handling of both submit handlers: exactly one filled
   * date blocks the submission; an empty date is sent as null.
   */
  function SubmitScheduled(start: string, end: string): (r: Submission)
    ensures r.Blocked? <==> (start == "") != (end == "")
    ensures r.Sent? ==> r.scheduledStart == (if start == "" then None else Some(start))
    ensures r.Sent? ==> r.scheduledEnd == (if end == "" then None else Some(end))
  {
    if (start != "" && end == "") || (start == "" && end != "") then Blocked
    else Sent(if start == "" then None else Some(start), if end == "" then None else Some(end))
  }

  /**
   * The body a submit handler posts once the pair check let the form
   * through: every field as typed, `is_not_main` from the checkbox, and an
   * empty scheduled date as null, so the two scheduled dates are both
   * filled or both null.
   */
  function FormRequest(name: string, detail: string, limitDate: string, isNotMain: bool,
                       start: string, end: string): (r: TaskRequest)
    requires SubmitScheduled(start, end).Sent?
    ensures r.name == Some(name) && r.detail == Some(detail) && r.limitDate == Some(limitDate)
    ensures r.isNotMain == Some(isNotMain)
    ensures r.scheduledStart.Some? <==> start != ""
    ensures r.scheduledEnd.Some? <==> end != ""
    ensures r.scheduledStart.Some? ==> r.scheduledStart.value == start
    ensures r.scheduledEnd.Some? ==> r.scheduledEnd.value == end
    ensures Filled(r.scheduledStart) == Filled(r.scheduledEnd)
  {
    var s := SubmitScheduled(start, end);
    TaskRequest(Some(name), Some(detail), Some(limitDate), s.scheduledStart, s.scheduledEnd, Some(isNotMain))
  }

  /**
   * The client check agrees with the server's: a submission the client
   * blocks would be refused by `add_task` and `update_task` too, and one it
   * sends is never refused for a mismatched scheduled pair (an unparsable
   * date is reported first).
   */
  lemma ClientPairCheckAgrees(name: string, detail: string, limitDate: string, isNotMain: bool, start: string, end: string)
    ensures SubmitScheduled(start, end).Blocked? ==>
      Validate(TaskRequest(Some(name), Some(detail), Some(limitDate), Some(start), Some(end), Some(isNotMain))).Rejected?
    ensures SubmitScheduled(start, end).Sent? ==>
      Validate(FormRequest(name, detail, limitDate, isNotMain, start, end)) != Rejected(ScheduledPairMismatch)
  {
    var s := SubmitScheduled(start, end);
    if s.Blocked? {
      RejectedRequests(TaskRequest(Some(name), Some(detail), Some(limitDate), Some(start), Some(end), Some(isNotMain)));
    } else {
      var req := FormRequest(name, detail, limitDate, isNotMain, start, end);
      if Fails(req, ScheduledPairMismatch) {
        // One date parses and the other does not; the other is filled, so its own check fails earlier.
        var why := if ParseDatetime(req.scheduledStart).None? then InvalidScheduledStart else InvalidScheduledEnd;
        assert Fails(req, why) && Rank(why) < Rank(ScheduledPairMismatch);
      }
    }
  }

  // ---- Details popup ----

  datatype Period = BothDates | StartOnly | EndOnly | NoDates

  /** Which actual-period text the details popup picks; JavaScript treats null and "" alike. */
  function PeriodOf(start: Option<string>, end: Option<string>): (p: Period)
    ensures p == BothDates <==> Filled(start) && Filled(end)
    ensures p == StartOnly <==> Filled(start) && !Filled(end)
    ensures p == EndOnly <==> !Filled(start) && Filled(end)
    ensures p == NoDates <==> !Filled(start) && !Filled(end)
  {
    if Filled(start) && Filled(end) then BothDates
    else if Filled(start) then StartOnly
    else if Filled(end) then EndOnly
    else NoDates
  }

  /** The actual-period text, given the display formatting of a timestamp string. */
  function ActualPeriodText(start: Option<string>, end: Option<string>, show: string -> string): (r: string)
    ensures PeriodOf(start, end) == BothDates ==> r == show(start.value) + " - " + show(end.value)
    ensures PeriodOf(start, end) == StartOnly ==> r == show(start.value) + " - (Ongoing)"
    ensures PeriodOf(start, end) == EndOnly ==> r == "(Not Started) - " + show(end.value)
    ensures PeriodOf(start, end) == NoDates ==> r == "N/A"
  {
    match PeriodOf(start, end)
    case BothDates => show(start.value) + " - " + show(end.value)
    case StartOnly => show(start.value) + " - (Ongoing)"
    case EndOnly => "(Not Started) - " + show(end.value)
    case NoDates => "N/A"
  }

  /**
   * For a stored task the period follows its status: a completed task shows
   * both dates, a todo task never shows an end, and "(Not Started)" appears
   * only for a task deleted before it was ever started.
   */
  lemma PeriodFollowsStatus(t: Task)
    requires Consistent(t) && RenderableDates(t)
    ensures var d := Details(t); var p := PeriodOf(d.actualStart, d.actualEnd);
      && (t.status == Completed ==> p == BothDates)
      && (t.status == Todo ==> p == StartOnly || p == NoDates)
      && (p == EndOnly ==> t.status == Deleted)
      && (p == NoDates ==> t.status == Todo || t.status == Doing)
  {
    var d := Details(t);
    assert Filled(d.actualStart) <==> t.actualStart.Some?;
    assert Filled(d.actualEnd) <==> t.actualEnd.Some?;
  }

  /** The restore button is shown for a completed or deleted task. */
  function RestoreVisible(status: Option<Status>): (r: bool)
    ensures r <==> status == Some(Completed) || status == Some(Deleted)
  {
    match status
    case Some(Completed) => true
    case Some(Deleted) => true
    case _ => false
  }

  /** The popup offers restore exactly for the tasks `restore_task_route` accepts. */
  lemma RestoreVisibleIffRestorable(t: Task, now: DateTime)
    ensures RestoreVisible(Some(t.status)) <==> Restore(t, now).Some?
  {
  }

  /** The delete reason is shown for a deleted task that has a non-empty one. */
  function ShowDeleteReason(status: Option<Status>, reason: Option<string>): (r: bool)
    ensures r <==> status == Some(Deleted) && Filled(reason)
  {
    status == Some(Deleted) && reason.Some? && reason.value != ""
  }

  /**
   * After a delete the popup shows the reason exactly when one was typed;
   * after a restore it never shows one.
   */
  lemma DeleteReasonShown(t: Task, reason: Option<string>, deletedAt: DateTime, restoredAt: DateTime)
    ensures var d := Delete(t, reason, deletedAt);
      ShowDeleteReason(Some(d.status), d.deleteReason) <==> Filled(reason)
    ensures var d := Delete(t, reason, deletedAt); var r := Restore(d, restoredAt).value;
      !ShowDeleteReason(Some(r.status), r.deleteReason)
  {
  }

  // ---- The client's copy of the task after a start/stop click ----

  /**
   * The JSON a start or pause call answers with. A key the reply lacks is
   * None; a key present with a null value is Some(None).
   */
  datatype Reply = Reply(
    actualStart: Option<Option<string>>,
    actualEnd: Option<Option<string>>,
    status: Option<Status>,
    newStatus: Option<Status>)

  /** The reply of `start_task_route` for a stored task. */
  function StartReply(t: Task, now: DateTime): (r: Reply)
    requires RenderableDates(t) && Valid(now)
    ensures t.status != Completed ==> r.status == Some(Start(t, now).status) && r.actualStart == Some(Iso(Start(t, now).actualStart))
    ensures t.status == Completed ==> r.status.None? && r.actualStart == Some(Iso(t.actualStart))
    ensures r.actualEnd.None? && r.newStatus.None?
  {
    if t.status == Completed then Reply(Some(Iso(t.actualStart)), None, None, None)
    else
      var s := Start(t, now);
      Reply(Some(Some(IsoFormat(s.actualStart.value))), None, Some(s.status), None)
  }

  /** The reply of `pause_task_route` for a doing task: the new status under `new_status`, and no dates. */
  function PauseReply(t: Task, now: DateTime): (r: Reply)
    requires t.status == Doing
    ensures r.newStatus == Some(Pause(t, now).value.status) && r.status.None?
    ensures r.actualStart.None? && r.actualEnd.None?
  {
    Reply(None, None, None, Some(Pause(t, now).value.status))
  }

  /**
   * The reply to the call `StartStopRoute` chooses for a task: a doing task
   * is paused and the reply names its new status only under `new_status`; a
   * completed task is answered without a status; any other task is started
   * and the reply names its new status under `status`.
   */
  function StartStopReply(t: Task, now: DateTime): (r: Reply)
    requires RenderableDates(t) && Valid(now)
    ensures r.newStatus.Some? <==> t.status == Doing
    ensures r.status.Some? <==> t.status != Doing && t.status != Completed
    ensures r.newStatus.Some? ==> r.newStatus.value == StartStopResult(t, now).status
    ensures r.status.Some? ==> r.status.value == StartStopResult(t, now).status
  {
    match StartStopRoute(Some(t.status))
    case PauseRoute => PauseReply(t, now)
    case StartRoute => StartReply(t, now)
  }

  /** The stored task after the call `StartStopRoute` chooses. */
  function StartStopResult(t: Task, now: DateTime): (r: Task)
    ensures r.status == (if t.status == Doing then Todo else if t.status == Completed then Completed else Doing)
  {
    match StartStopRoute(Some(t.status))
    case PauseRoute => Pause(t, now).value
    case StartRoute => Start(t, now)
  }

  /**
   * The update of `currentEditTaskDetails` after a successful start/stop
   * call, as written: the status is read from the reply's `status` key,
   * which the pause reply does not have.
   */
  function AfterStartStopAsWritten(d: TaskDetails, r: Reply): (d': TaskDetails)
    ensures d'.status == r.status && d'.id == d.id && d'.deleteReason == d.deleteReason
    ensures d'.actualStart == (if r.actualStart.Some? then r.actualStart.value else d.actualStart)
    ensures d'.actualEnd == (if r.actualEnd.Some? then r.actualEnd.value else None)
  {
    d.(actualStart := if r.actualStart.Some? then r.actualStart.value else d.actualStart,
       actualEnd := if r.actualEnd.Some? then r.actualEnd.value else None,
       status := r.status)
  }

  /**
   * As written, stopping a doing task leaves the client's status undefined
   * instead of todo. The buttons then drawn are those of a todo task and the
   * next click is a start, so the slip does not show.
   */
  lemma PauseLosesClientStatus(t: Task, now: DateTime)
    requires t.status == Doing && RenderableDates(t)
    ensures Pause(t, now).value.status == Todo
    ensures AfterStartStopAsWritten(Details(t), PauseReply(t, now)).status == None
    ensures EditButtons(None) == EditButtons(Some(Todo)) && StartStopRoute(None) == StartStopRoute(Some(Todo))
  {
  }

  /** The update of `currentEditTaskDetails` reading the status under either key the server uses. */
  function AfterStartStop(d: TaskDetails, r: Reply): (d': TaskDetails)
    ensures d'.status == (if r.status.Some? then r.status else r.newStatus)
    ensures d'.id == d.id && d'.deleteReason == d.deleteReason
    ensures d'.actualStart == (if r.actualStart.Some? then r.actualStart.value else d.actualStart)
    ensures d'.actualEnd == (if r.actualEnd.Some? then r.actualEnd.value else None)
  {
    var d' := AfterStartStopAsWritten(d, r);
    d'.(status := if r.status.Some? then r.status else r.newStatus)
  }

  /**
   * With the corrected update, a start/stop click on an active task leaves
   * the client's copy equal to what the server then holds: status and both
   * actual dates.
   */
  lemma StartStopKeepsClientInSync(t: Task, now: DateTime)
    requires Active(t.status) && Consistent(t) && RenderableDates(t) && Valid(now)
    ensures RenderableDates(StartStopResult(t, now))
    ensures AfterStartStop(Details(t), StartStopReply(t, now)) == Details(StartStopResult(t, now))
  {
    var r := StartStopResult(t, now);
    if t.status == Todo {
      assert t.actualEnd.None?;
      assert r.actualEnd.None?;
    }
  }
}
