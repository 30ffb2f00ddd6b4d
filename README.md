# Task lifecycle store

A Dafny model of a small Flask task manager: the `tasks` table declared in
`models.py`, the routes of `app.py` that create, edit, start, pause, end,
soft-delete, restore, reorder and list tasks, and the decisions the browser
script `static/main.js` takes on its own (date inputs, Gantt zoom steps, edit
buttons, the start/stop dispatch, the submit check and the details popup).

Modules, one file each:

- `Wrappers` (wrappers.dfy): `Option`.
- `Dates` (dates.dfy): timestamps to the second, `parse_datetime` over its two
  accepted shapes (`YYYY-MM-DD` and `YYYY-MM-DDTHH:MM`, with the `T` matched
  case-insensitively as `strptime` does), and `isoformat()`.
- `Models` (models.py): the `Task` row with its nullability and defaults, and
  the row invariant `Consistent` that every route keeps.
- `Validation`: the checks `add_task` and `update_task` share, in their order.
- `Lifecycle`: what each per-task route does to the row it fetched, as pure
  functions, and lemmas over any sequence of route calls on one task.
- `Listing`: the three read routes as a scan of the table, a status filter and
  a sort by the route's `ORDER BY` key.
- `Reorder`: the effect of `update_task_order`'s loop, and the proof that the
  drag-and-drop list read back by display order is the list sent.
- `Store`: the class `TaskStore`, holding the table as a map from id to row and
  the next id to assign, with one method per route. The store invariant keeps
  every row consistent and every date column a valid timestamp, so each stored
  row can be rendered for the client. Each write route either
  does its whole effect or answers an error and leaves the table unchanged.
  For `update_task_order` that is the all-or-nothing behaviour its nested
  transaction is meant to give (app.py:325); see "## Left out" for what the
  SQLite driver may do instead.
- `Client`: the pure decision logic of `static/main.js`, each piece related to
  the server function it must agree with.

The clock is a parameter `now` of every writing route, a valid timestamp.

The model follows the code as written, including these behaviours a reader might not expect:

- No route checks that a scheduled start precedes its scheduled end.
- Delete accepts a task that is already deleted.
- Start and end act on a deleted task.
- A new task gets display order 0, so display orders are not unique.
- The reorder route does not check that the ids sent are exactly the active tasks.

## Model

| member | source | states |
|---|---|---|
| Dates.ParseDatetime | app.py:33-50 | null or "" gives None; a parse is a valid calendar timestamp with zero seconds; only the 10- and 16-character shapes parse; a 10-character text that parses is exactly the `YYYY-MM-DD` rendering of its result, at midnight; a 16-character one is the `YYYY-MM-DD` rendering, a `T` in either case and the `HH:MM` rendering of its result, so a malformed or impossible date gives None |
| Dates.StrptimeDate | app.py:47 | a parse of `%Y-%m-%d` is a valid midnight whose rendering is the text itself |
| Dates.StrptimeMinute | app.py:43 | a parse of `%Y-%m-%dT%H:%M` is a valid timestamp with zero seconds whose date and time renderings are the text itself, up to the case of the `T` |
| Dates.ParseMinuteText | app.py:43 | every valid timestamp with zero seconds, written as `YYYY-MM-DDTHH:MM`, parses back to itself |
| Dates.ParseDateText | app.py:47 | every valid date written as `YYYY-MM-DD` parses back to midnight of that day |
| Dates.IsoFormat | app.py:105-115 | `isoformat()` is 19 characters and begins with the `YYYY-MM-DD` date |
| Models.NewTask | models.py:15-37 | a new row is todo with display order 0, no actual dates and no delete reason, created and updated now, with the entered columns as given; it satisfies the row invariant exactly when it has a name and both scheduled dates or neither |
| Validation.Validate | app.py:145-173 | a request is accepted exactly when no check fails; a rejection names the first failing check in the routes' order; an accepted request yields a non-empty name, the parsed limit date and both scheduled dates or neither |
| Validation.RejectedRequests | app.py:405-435 | an empty name, a missing or unparsable limit date, a filled but unparsable scheduled date, and exactly one filled scheduled date are each rejected |
| Lifecycle.Start | app.py:231-237 | a completed task is returned unchanged; otherwise the task is doing, its first start time is kept or set to now, and the entered columns, end date, reason and order are kept; the row invariant is preserved |
| Lifecycle.Pause | app.py:261-266 | refused exactly when the task is not doing; otherwise todo with no end date, start date, reason and order kept |
| Lifecycle.End | app.py:290-299 | a completed task is returned unchanged; otherwise completed, ended now, started now unless it had started, so both actual dates are set |
| Lifecycle.Delete | app.py:205-212 | any task becomes deleted with the given reason, ended now; start date and order kept |
| Lifecycle.Restore | app.py:375-385 | refused exactly when the task is neither completed nor deleted; otherwise todo with no end date and no reason, start date and order kept |
| Lifecycle.Update | app.py:176-186 | the entered columns take the checked values, `is_not_main` keeps its old value when absent, status, actual dates, order and reason are unchanged |
| Lifecycle.Place | app.py:327-331 | the task takes the given display order; nothing but the order and update time changes |
| Lifecycle.Apply | app.py:205-385 | every route call on an existing task keeps its id and creation time, never moves a start time once set, and preserves the row invariant |
| Lifecycle.RunKeepsConsistent | app.py:205-385 | no sequence of route calls breaks the row invariant |
| Lifecycle.RunKeepsActualStart | app.py:234-235 | once set, the actual start date survives any sequence of start, pause, end, delete, restore, edit and reorder calls |
| Lifecycle.RunKeepsIdentity | models.py:15 | a task's id and creation time never change |
| Lifecycle.DeleteThenRestore | app.py:209-212 | delete then restore yields todo with no reason and no end date, although delete had set both; a todo task without a delete reason comes back as it was but for its update time |
| Lifecycle.StartThenPause | app.py:235-266 | pausing right after starting a todo task gives the todo task, now marked as started |
| Lifecycle.EndThenRestore | app.py:294-385 | a task ended and restored is todo and stays marked as started, at its first start or at its end time |
| Lifecycle.StartRevivesDeletedTask | app.py:231-237 | start on a deleted task makes it doing and active, still carrying its end date and reason |
| Listing.Filter | app.py:63 | the filtered list holds each row of the input whose status is kept, as often as the input holds it, and nothing else |
| Listing.Sort | app.py:67-69 | the result is a permutation of the input, ordered by the key |
| Listing.ActiveTasks | app.py:63-71 | every todo or doing task exactly once and nothing else, ordered by (limit date, display order) when `sort_by` is "limit_date", else by (display order, limit date) |
| Listing.CompletedTasks | app.py:348 | every completed task exactly once, most recently ended first, those without an end date last |
| Listing.DeletedTasks | app.py:360 | every deleted task exactly once, most recently updated first |
| Listing.NewestEndFirst | app.py:348 | in a list sorted by end date descending, a row with an end date is preceded only by rows that ended at the same time or later |
| Listing.NewestUpdateFirst | app.py:360 | in a list sorted by update time descending, update times never increase |
| Reorder.LastIndex | app.py:327-331 | the last position of an id in the list, -1 exactly when it is absent |
| Reorder.Reordered | app.py:321-335 | after the loop, a listed task's order is its last position in the list and an unlisted task is untouched; no row appears or disappears; the row invariant is preserved |
| Reorder.ReorderedSnoc | app.py:327-331 | one more loop iteration gives the next listed task the next position |
| Reorder.ReorderedPositions | app.py:327-331 | without repeated ids, the task at position k gets display order k |
| Reorder.ReorderThenList | app.py:312-336 | reordering by the list of all active tasks and then listing by display order returns the tasks in exactly the order sent |
| Store.ReorderedKeepsValid | app.py:327-331 | reordering at a valid time keeps every row keyed by its own id, inside the id range, consistent and with valid dates |
| Store.TaskStore.constructor | models.py:15 | an empty table whose first id is 1 |
| Store.TaskStore.AddTask | app.py:397-451 | a rejected request writes nothing; an accepted one inserts the new row under a fresh id, answers that id, and keeps the store invariant |
| Store.TaskStore.UpdateTask | app.py:132-189 | unknown id: not found, no change; rejected request: the first failing check, no change; otherwise only that row is rewritten, as `Update` says |
| Store.TaskStore.DeleteTask | app.py:195-215 | unknown id: not found, no change; otherwise only that row changes, as `Delete` says |
| Store.TaskStore.StartTask | app.py:220-244 | unknown id: not found; completed: answered without a write; otherwise only that row changes, as `Start` says |
| Store.TaskStore.PauseTask | app.py:250-273 | unknown id: not found; not doing: refused with no change; otherwise only that row changes, as `Pause` says |
| Store.TaskStore.EndTask | app.py:279-306 | unknown id: not found; completed: answered without a write; otherwise only that row changes, as `End` says |
| Store.TaskStore.RestoreTask | app.py:365-392 | unknown id: not found; neither completed nor deleted: refused with no change; otherwise only that row changes, as `Restore` says |
| Store.TaskStore.UpdateTaskOrder | app.py:312-336 | a missing or empty list is refused; a list naming an unknown id answers not found and changes nothing; otherwise the table becomes `Reordered` of the list; the loop is proved against that function |
| Store.TaskStore.GetTasks | app.py:53-91 | the active listing; a row is in it exactly when it is a stored todo or doing task |
| Store.TaskStore.GetCompletedTasks | app.py:341-349 | the completed listing; a row is in it exactly when it is a stored completed task |
| Store.TaskStore.GetDeletedTasks | app.py:353-361 | the deleted listing; a row is in it exactly when it is a stored deleted task |
| Client.Iso | app.py:108-109 | a nullable date column is serialised as null or a 19-character string that begins with its date |
| Client.Details | app.py:96-116 | the client's copy carries the row's id, status and reason, and each actual date exactly when the row has it |
| Client.FormatDateTimeForInput | static/main.js:61-64 | null or "" gives ""; otherwise the first 10 characters, or the whole string if shorter |
| Client.EditFormKeepsDayOnly | static/main.js:158-160 | a stored timestamp shown in the edit form is its `YYYY-MM-DD` date, which the server parses back as midnight: saving drops the time of day |
| Client.IndexOf | static/main.js:424 | the first position of a mode in the list, -1 exactly when it is absent |
| Client.Origin | static/main.js:424-431 | the wheel step starts at the current mode, or at 'Week' when the mode is not listed |
| Client.ZoomTarget | static/main.js:435-443 | one step finer when deltaY < 0, one step coarser otherwise, clamped to the five modes |
| Client.ZoomOnWheel | static/main.js:423-447 | the handler switches to the mode at the target position, and does nothing exactly when that is the mode shown |
| Client.ZoomStopsAtEnds | static/main.js:438-443 | zooming in at 'Quarter Day' or out at 'Month' changes nothing |
| Client.ZoomMovesInside | static/main.js:433-447 | away from the ends a step always changes the mode; an unlisted mode becomes 'Day' or 'Month' |
| Client.ZoomInThenOut | static/main.js:433-443 | one step in then one step out returns to the mode shown, unless it was the finest |
| Client.EditButtons | static/main.js:132-150 | "Stop" exactly when doing; Start disabled exactly when completed; End disabled exactly when completed; Delete disabled exactly when deleted |
| Client.StartStopRoute | static/main.js:973-981 | the click calls pause exactly when the button reads "Stop", else start |
| Client.ButtonsMatchServer | static/main.js:137-150 | "Stop" is offered exactly when pause is accepted; an enabled Start or End changes the status; a disabled one is a call the server answers without a write |
| Client.SubmitScheduled | static/main.js:835-846 | exactly one filled scheduled date blocks the submission; an empty date is sent as null |
| Client.FormRequest | static/main.js:839-844 | the posted body: name, detail and limit date as typed, the checkbox as `is_not_main`, a scheduled date as typed or null when empty, so both scheduled dates are filled or both null |
| Client.ClientPairCheckAgrees | static/main.js:879-890 | a blocked submission would be rejected by the server too; a sent one is never rejected for a mismatched pair |
| Client.PeriodOf | static/main.js:183-190 | both dates, start only, end only or neither, by which dates are present and non-empty |
| Client.ActualPeriodText | static/main.js:183-190 | "start - end", "start - (Ongoing)", "(Not Started) - end" or "N/A" by case |
| Client.PeriodFollowsStatus | static/main.js:183-190 | for a stored task a completed one shows both dates, a todo one never an end, and "(Not Started)" appears only for a deleted task |
| Client.RestoreVisible | static/main.js:211-215 | the restore button is shown exactly for completed or deleted |
| Client.RestoreVisibleIffRestorable | static/main.js:211-215 | the restore button is shown exactly when the restore route accepts the task |
| Client.ShowDeleteReason | static/main.js:197-203 | the reason is shown exactly for a deleted task with a non-empty reason |
| Client.DeleteReasonShown | static/main.js:197-203 | after a delete the reason is shown exactly when one was typed; after a restore never |
| Client.StartReply | app.py:231-244 | a start reply carries the new status and start date, or for a completed task only the start date |
| Client.PauseReply | app.py:268-273 | a pause reply carries the new status under `new_status` and no `status` key |
| Client.StartStopReply | app.py:226-273 | the reply to the dispatched call carries `new_status` exactly for a doing task (paused) and `status` exactly for a task neither doing nor completed (started), each equal to the stored status afterwards |
| Client.StartStopResult | static/main.js:973-981 | the click leaves a doing task todo, a completed one completed and any other doing |
| Client.AfterStartStopAsWritten | static/main.js:993-997 | the client's status becomes the reply's `status` key; the start date is replaced only when the reply has one; the end date is the reply's or null |
| Client.PauseLosesClientStatus | static/main.js:996 | after a pause the server holds todo while the client's status is undefined, and undefined draws the same buttons and dispatch as todo |
| Client.AfterStartStop | static/main.js:993-997 | as above, with the status read from `status` or else `new_status` |
| Client.StartStopKeepsClientInSync | static/main.js:973-997 | after a start/stop click on an active task, the client's copy equals the details of the row the server then holds |

## Left out

- Flask routing, JSON decoding and HTTP codes: a request is a datatype of optional fields and a route answers an `Outcome`.
- Server errors (500) from exceptions, and the session's commit and rollback: a write route either does its effect or answers an error and writes nothing.
- `datetime.utcnow()` is the parameter `now`, one value per call; the source reads the clock several times within one route.
- Microseconds are not modelled: timestamps stop at seconds, and `isoformat()` is the form for zero microseconds.
- Dates.ParseDatetime: accepts only zero-padded fields of ASCII digits; `strptime` also accepts unpadded months, days, hours and minutes, a day written with a leading space ("2024-01- 1"), and non-ASCII decimal digits such as full-width ones ("２０２４-01-01"), all of which the model rejects.
- Store.TaskStore.UpdateTask: an explicit JSON null for `is_not_main` keeps the old value; the source assigns None to the NOT NULL column, the UPDATE fails and the route answers 500. (On insert the ORM leaves a None attribute with a column default out of the INSERT, so `add_task` stores false, as the model does.)
- Store.TaskStore.UpdateTaskOrder: ids are integers; the source would also look up non-integer list elements.
- Store.TaskStore.UpdateTaskOrder: on an unknown id the model keeps no order change, following the all-or-nothing intent stated at app.py:325. With the default pysqlite driver, `begin_nested()` opens the SQLite transaction with a SAVEPOINT, and the `return` at app.py:334 leaves the `with` block normally, which releases that outermost savepoint and so commits. The display orders already set for earlier ids may therefore persist on the 404 path.
- Listing.ActiveTasks: equal sort keys leave the order of rows unspecified in SQL; the model promises only ordering and exactly-once membership.
- `get_task_detail`, `index`, `init_database` and `app.run` are not part of this model.
- In static/main.js: all DOM updates, `fetch` calls, popups, the Sortable drag library, the Frappe Gantt widget, the today line, progress percentages and locale date display (`ActualPeriodText` takes the display formatting as a parameter).
- Client.ZoomOnWheel: deltaY is a floating-point number in the browser and an integer here; only its sign matters.
- Client.AfterStartStop: `currentEditTaskDetails` is a global object updated in place; the model computes its new value.

## Findings

| source | as written | input that shows it | evidently intended | confidence | as-written member | corrected member |
|---|---|---|---|---|---|---|
| static/main.js:996 | after a successful start/stop call the client copies `data.status`, but the pause reply (app.py:269-273) names the field `new_status` | click "Stop" on a doing task: the server holds todo, the client's status is undefined | the client's status equals the server's new status | high; not executed; masked in the UI because undefined draws the same buttons as todo | Client.AfterStartStopAsWritten, Client.PauseLosesClientStatus | Client.AfterStartStop, Client.StartStopKeepsClientInSync |
