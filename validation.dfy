/**
 * The request checks `add_task` and `update_task` (app.py) make, in the same
 * order in both routes, before they write anything.
 */
module Validation {
  import opened Wrappers
  import opened Dates

  /**
   * The JSON body of a create or update request. None stands for a key that is
   * absent or null; `data.get(key)` gives None for both.
   */
  datatype TaskRequest = TaskRequest(
    name: Option<string>,
    detail: Option<string>,
    limitDate: Option<string>,
    scheduledStart: Option<string>,
    scheduledEnd: Option<string>,
    isNotMain: Option<bool>)

  /** Why a route answers 400. */
  datatype Reason =
    | NameRequired
    | LimitDateRequired
    | InvalidLimitDate
    | InvalidScheduledStart
    | InvalidScheduledEnd
    | ScheduledPairMismatch
    | NotDoing
    | NotRestorable
    | InvalidOrderPayload

  /** The checked values a create or update writes. */
  datatype Fields = Fields(
    name: string,
    detail: Option<string>,
    limitDate: DateTime,
    scheduledStart: Option<DateTime>,
    scheduledEnd: Option<DateTime>)

  datatype Checked = Accepted(fields: Fields) | Rejected(why: Reason)

  /** Python truthiness of an optional string: present and not empty. */
  predicate Filled(s: Option<string>) {
    s.Some? && s.value != ""
  }

  /** The check that answers `why` fails on `req`, judged on its own. */
  predicate Fails(req: TaskRequest, why: Reason) {
    match why
    case NameRequired => !Filled(req.name)
    case LimitDateRequired => !Filled(req.limitDate)
    case InvalidLimitDate => Filled(req.limitDate) && ParseDatetime(req.limitDate).None?
    case InvalidScheduledStart => Filled(req.scheduledStart) && ParseDatetime(req.scheduledStart).None?
    case InvalidScheduledEnd => Filled(req.scheduledEnd) && ParseDatetime(req.scheduledEnd).None?
    case ScheduledPairMismatch => ParseDatetime(req.scheduledStart).Some? != ParseDatetime(req.scheduledEnd).Some?
    case _ => false
  }

  /** The position of each check in the routes' sequence of checks. */
  function Rank(why: Reason): nat {
    match why
    case NameRequired => 0
    case LimitDateRequired => 1
    case InvalidLimitDate => 2
    case InvalidScheduledStart => 3
    case InvalidScheduledEnd => 4
    case ScheduledPairMismatch => 5
    case NotDoing => 6
    case NotRestorable => 7
    case InvalidOrderPayload => 8
  }

  /**
   * The checks of `add_task` and `update_task`: a request is accepted exactly
   * when no check fails, and a rejection names the first check that fails.
   * An accepted request carries a name and both scheduled dates or neither.
   */
  function Validate(req: TaskRequest): (r: Checked)
    ensures r.Rejected? ==> Fails(req, r.why) && forall why :: Rank(why) < Rank(r.why) ==> !Fails(req, why)
    ensures r.Accepted? <==> forall why :: !Fails(req, why)
    ensures r.Accepted? ==>
      && Some(r.fields.name) == req.name && r.fields.name != ""
      && r.fields.detail == req.detail
      && Some(r.fields.limitDate) == ParseDatetime(req.limitDate)
      && r.fields.scheduledStart == ParseDatetime(req.scheduledStart)
      && r.fields.scheduledEnd == ParseDatetime(req.scheduledEnd)
      && r.fields.scheduledStart.Some? == r.fields.scheduledEnd.Some?
  {
    if !Filled(req.name) then assert Fails(req, NameRequired); Rejected(NameRequired)
    else if !Filled(req.limitDate) then assert Fails(req, LimitDateRequired); Rejected(LimitDateRequired)
    else if ParseDatetime(req.limitDate).None? then assert Fails(req, InvalidLimitDate); Rejected(InvalidLimitDate)
    else
      var start, end := ParseDatetime(req.scheduledStart), ParseDatetime(req.scheduledEnd);
      if Filled(req.scheduledStart) && start.None? then
        assert Fails(req, InvalidScheduledStart); Rejected(InvalidScheduledStart)
      else if Filled(req.scheduledEnd) && end.None? then
        assert Fails(req, InvalidScheduledEnd); Rejected(InvalidScheduledEnd)
      else if start.Some? != end.Some? then
        assert Fails(req, ScheduledPairMismatch); Rejected(ScheduledPairMismatch)
      else Accepted(Fields(req.name.value, req.detail, ParseDatetime(req.limitDate).value, start, end))
  }

  /**
   * The four rejections a create or update must make: no name, no parsable
   * limit date, an unparsable scheduled date, exactly one scheduled date.
   */
  lemma RejectedRequests(req: TaskRequest)
    ensures !Filled(req.name) ==> Validate(req) == Rejected(NameRequired)
    ensures ParseDatetime(req.limitDate).None? ==> Validate(req).Rejected?
    ensures Filled(req.scheduledStart) && ParseDatetime(req.scheduledStart).None? ==> Validate(req).Rejected?
    ensures Filled(req.scheduledEnd) && ParseDatetime(req.scheduledEnd).None? ==> Validate(req).Rejected?
    ensures Filled(req.scheduledStart) != Filled(req.scheduledEnd) ==> Validate(req).Rejected?
  {
    var r := Validate(req);
    if ParseDatetime(req.limitDate).None? {
      assert Fails(req, if Filled(req.limitDate) then InvalidLimitDate else LimitDateRequired);
    }
    if Filled(req.scheduledStart) && !Filled(req.scheduledEnd) {
      assert ParseDatetime(req.scheduledEnd).None?;
      assert Fails(req, if ParseDatetime(req.scheduledStart).None? then InvalidScheduledStart else ScheduledPairMismatch);
    }
    if !Filled(req.scheduledStart) && Filled(req.scheduledEnd) {
      assert ParseDatetime(req.scheduledStart).None?;
      assert Fails(req, if ParseDatetime(req.scheduledEnd).None? then InvalidScheduledEnd else ScheduledPairMismatch);
    }
    if Filled(req.scheduledStart) && ParseDatetime(req.scheduledStart).None? {
      assert Fails(req, InvalidScheduledStart);
    }
    if Filled(req.scheduledEnd) && ParseDatetime(req.scheduledEnd).None? {
      assert Fails(req, InvalidScheduledEnd);
    }
  }
}
