/** The leave-request workflow (`hrLeaveRequest`): an employee files a
    request, the department manager approves or rejects it, HR gives the
    final approval (charging the days to the balance ledger) or rejects it,
    and the owner may edit or cancel it while it is still open.

    The current year and the current instant are parameters, and the
    user/department tables the manager check reads are given as an `Org`. */
module LeaveRequests {
  import opened Common
  import opened Query
  import Text
  import Calendar
  import LeaveTypes
  import LeaveBalance

  datatype Status =
    | PendingManager
    | ApprovedManager
    | PendingHr
    | ApprovedHr
    | RejectedManager
    | RejectedHr
    | Cancelled

  datatype LeaveRequest = LeaveRequest(
    id: nat,
    requestNumber: string,
    userId: nat,
    leaveTypeId: nat,
    startDate: Calendar.Instant,
    endDate: Calendar.Instant,
    totalDays: real,
    isHalfDay: bool,
    halfDayPeriod: Option<string>,
    reason: string,
    attachment: Option<string>,
    status: Status,
    managerId: Option<nat>,
    managerApprovalDate: Option<Calendar.Instant>,
    managerNotes: Option<string>,
    hrOfficerId: Option<nat>,
    hrApprovalDate: Option<Calendar.Instant>,
    hrNotes: Option<string>)

  /** The body of a create request (dates already parsed to instants). */
  datatype NewRequest = NewRequest(
    leaveTypeId: nat,
    startDate: Calendar.Instant,
    endDate: Calendar.Instant,
    isHalfDay: Option<bool>,
    halfDayPeriod: Option<string>,
    reason: string,
    attachmentPath: Option<string>)

  /** The body of an update request; `None` is a field left out. */
  datatype RequestEdit = RequestEdit(
    startDate: Option<Calendar.Instant>,
    endDate: Option<Calendar.Instant>,
    isHalfDay: Option<bool>,
    halfDayPeriod: Option<string>,
    reason: Option<string>,
    attachmentPath: Option<string>)

  datatype Error =
    | NotFound(id: nat)
    | StartAfterEnd
    | InvalidLeaveType
    | AttachmentRequired
    | NoBalance(year: int)
    | Insufficient(available: real, requested: real)
    | NotOwner
    | NotPendingManager
    | NotManager
    | NotPendingHr
    | CannotCancelApproved
    | AlreadyClosed
    | CannotDeleteApproved
    | Ledger(cause: LeaveBalance.Error)

  /** The user and department tables as the manager check sees them: each
      user's department and each department's manager. */
  datatype Org = Org(departmentOf: map<nat, nat>, managerOf: map<nat, nat>)
  {
    /** `user.department.managerId`, when the user has a department with a
        manager. */
    function ManagerOf(u: nat): (r: Option<nat>)
      ensures r.Some? <==> u in departmentOf && departmentOf[u] in managerOf
      ensures r.Some? ==> Manages(r.value, u)
    {
      if u in departmentOf && departmentOf[u] in managerOf then Some(managerOf[departmentOf[u]]) else None
    }

    /** Some department managed by `m` has `u` among its users. */
    predicate Manages(m: nat, u: nat) {
      u in departmentOf && departmentOf[u] in managerOf && managerOf[departmentOf[u]] == m
    }
  }

  /** A string field counts as given when present and non-empty. */
  predicate HasText(s: Option<string>) {
    s.Some? && s.value != ""
  }

  // ---------------------------------------------------------------------
  // Pure helpers: day count and request number
  // ---------------------------------------------------------------------

  function Abs(x: int): (r: nat)
    ensures r == x || r == -x
  {
    if x < 0 then -x else x
  }

  /** `Math.ceil(ms / day)` for a non-negative duration. */
  function CeilDays(ms: nat): (n: nat)
    ensures n * Calendar.DayMs >= ms
    ensures n > 0 ==> (n - 1) * Calendar.DayMs < ms
  {
    (ms + Calendar.DayMs - 1) / Calendar.DayMs
  }

  /** `calculateDays`: a half day counts 0.5 whatever the dates; otherwise
      the whole number of days covering the gap between the two instants,
      plus one. */
  function CalculateDays(start: Calendar.Instant, end: Calendar.Instant, isHalfDay: bool): (r: real)
    ensures isHalfDay ==> r == 0.5
    ensures !isHalfDay ==> r >= 1.0 && r == r.Floor as real
    ensures !isHalfDay ==> (r - 1.0) * (Calendar.DayMs as real) >= Abs(end - start) as real
    ensures !isHalfDay && r > 1.0 ==> (r - 2.0) * (Calendar.DayMs as real) < Abs(end - start) as real
  {
    if isHalfDay then 0.5 else (CeilDays(Abs(end - start)) + 1) as real
  }

  lemma CalculateDaysSymmetric(start: Calendar.Instant, end: Calendar.Instant, isHalfDay: bool)
    ensures CalculateDays(start, end, isHalfDay) == CalculateDays(end, start, isHalfDay)
  {
  }

  /** `generateRequestNumber`: "LR", the year, then the ordinal `count + 1`
      zero-padded to five digits (more only when the ordinal needs them). */
  function RequestNumber(year: nat, count: nat): (r: string)
    ensures Text.StartsWith(r, "LR" + Text.NatToString(year))
    ensures var digits := r[|"LR" + Text.NatToString(year)|..];
      && |digits| == (if |Text.NatToString(count + 1)| >= 5 then |Text.NatToString(count + 1)| else 5)
      && Text.AllDigits(digits)
      && Text.DecimalValue(digits) == count + 1
  {
    var prefix := "LR" + Text.NatToString(year);
    var digits := Text.PadStart(Text.NatToString(count + 1), 5, '0');
    Text.ZeroPaddedValue(count + 1, 5);
    assert (prefix + digits)[|prefix|..] == digits;
    prefix + digits
  }

  /** Requests whose number carries the given year's prefix. */
  function CountForYear(requests: seq<LeaveRequest>, year: nat): nat {
    Count(requests, (q: LeaveRequest) => Text.StartsWith(q.requestNumber, "LR" + Text.NatToString(year)))
  }

  // ---------------------------------------------------------------------
  // The status machine
  // ---------------------------------------------------------------------

  datatype Action = ManagerApproval | ManagerRejection | HrApproval | HrRejection | Cancellation

  /** A request in one of these states accepts no further action but
      deletion (and deletion is refused for `ApprovedHr`). */
  predicate Closed(s: Status) {
    s == ApprovedHr || s == RejectedManager || s == RejectedHr || s == Cancelled
  }

  /** The status a request is left in after an action its status guard
      accepts, or None when the guard refuses it. */
  function StatusAfter(s: Status, a: Action): (r: Option<Status>)
    ensures Closed(s) ==> r.None?
    ensures r.Some? ==> r.value != PendingManager && r.value != ApprovedManager
    ensures r == Some(ApprovedHr) <==> a == HrApproval && (s == PendingHr || s == ApprovedManager)
    ensures a == Cancellation ==> (r.Some? <==> s == PendingManager || s == PendingHr || s == ApprovedManager)
  {
    match a
    case ManagerApproval => if s == PendingManager then Some(PendingHr) else None
    case ManagerRejection => if s == PendingManager then Some(RejectedManager) else None
    case HrApproval => if s == PendingHr || s == ApprovedManager then Some(ApprovedHr) else None
    case HrRejection => if s == PendingHr || s == ApprovedManager then Some(RejectedHr) else None
    case Cancellation =>
      if s == ApprovedHr || s == Cancelled || s == RejectedManager || s == RejectedHr then None
      else Some(Cancelled)
  }

  /** Every path through the machine ends in a closed state after at most
      two accepted actions: each accepted action strictly lowers `Rank`. */
  function Rank(s: Status): nat {
    match s
    case PendingManager => 2
    case ApprovedManager => 1
    case PendingHr => 1
    case _ => 0
  }

  lemma {:induction false} ActionsLowerRank(s: Status, a: Action)
    requires StatusAfter(s, a).Some?
    ensures Rank(StatusAfter(s, a).value) < Rank(s)
  {
    match a
    case ManagerApproval =>
    case ManagerRejection =>
    case HrApproval =>
    case HrRejection =>
    case Cancellation =>
  }

  // ---------------------------------------------------------------------
  // Record-level effects of the operations
  // ---------------------------------------------------------------------

  /** The leave type `findUnique({ where: { id } })` returns. */
  function LeaveTypeOf(types: seq<LeaveTypes.LeaveType>, id: nat): (r: Option<LeaveTypes.LeaveType>)
    ensures r.Some? ==> r.value in types && r.value.id == id
    ensures r.None? <==> forall i :: 0 <= i < |types| ==> types[i].id != id
  {
    match FindFirst(types, (t: LeaveTypes.LeaveType) => t.id == id)
    case None => None
    case Some(i) => Some(types[i])
  }

  /** The number of days a create request asks for. */
  function RequestedDays(dto: NewRequest): real {
    CalculateDays(dto.startDate, dto.endDate, dto.isHalfDay.GetOr(false))
  }

  /** The guards of `create` before the balance check: the dates are in
      order, the leave type exists and is active, and an attachment is
      given when the type requires one. */
  predicate Eligible(types: seq<LeaveTypes.LeaveType>, dto: NewRequest) {
    && dto.startDate <= dto.endDate
    && LeaveTypeOf(types, dto.leaveTypeId).Some?
    && LeaveTypeOf(types, dto.leaveTypeId).value.isActive
    && (LeaveTypeOf(types, dto.leaveTypeId).value.requiresAttachment ==> HasText(dto.attachmentPath))
  }

  /** The guards of `create`, in the order the service runs them: the dates,
      the leave type, the attachment, and the balance. Yields the leave type
      when every guard passes, and otherwise the error of the first guard
      that fails. */
  function Admission(types: seq<LeaveTypes.LeaveType>, rows: seq<LeaveBalance.Balance>, userId: nat,
                     dto: NewRequest, currentYear: int): (r: Result<LeaveTypes.LeaveType, Error>)
    ensures r.Ok? <==>
      Eligible(types, dto) && LeaveBalance.Sufficient(rows, LeaveBalance.Key(userId, dto.leaveTypeId, currentYear), RequestedDays(dto))
    ensures r.Ok? ==> Some(r.value) == LeaveTypeOf(types, dto.leaveTypeId)
    ensures dto.startDate > dto.endDate ==> r == Err(StartAfterEnd)
    ensures (dto.startDate <= dto.endDate && LeaveTypeOf(types, dto.leaveTypeId).None?) ==> r == Err(InvalidLeaveType)
    ensures (dto.startDate <= dto.endDate && LeaveTypeOf(types, dto.leaveTypeId).Some? &&
             !LeaveTypeOf(types, dto.leaveTypeId).value.isActive) ==> r == Err(InvalidLeaveType)
    ensures (dto.startDate <= dto.endDate && LeaveTypeOf(types, dto.leaveTypeId).Some? &&
             LeaveTypeOf(types, dto.leaveTypeId).value.isActive &&
             LeaveTypeOf(types, dto.leaveTypeId).value.requiresAttachment && !HasText(dto.attachmentPath)) ==>
      r == Err(AttachmentRequired)
    ensures (Eligible(types, dto) &&
             !LeaveBalance.Sufficient(rows, LeaveBalance.Key(userId, dto.leaveTypeId, currentYear), RequestedDays(dto)) &&
             LeaveBalance.Lookup(rows, LeaveBalance.Key(userId, dto.leaveTypeId, currentYear)).None?) ==>
      r == Err(NoBalance(currentYear))
    ensures (Eligible(types, dto) &&
             !LeaveBalance.Sufficient(rows, LeaveBalance.Key(userId, dto.leaveTypeId, currentYear), RequestedDays(dto)) &&
             LeaveBalance.Lookup(rows, LeaveBalance.Key(userId, dto.leaveTypeId, currentYear)).Some?) ==>
      var i := LeaveBalance.Lookup(rows, LeaveBalance.Key(userId, dto.leaveTypeId, currentYear)).value;
      r == Err(Insufficient(rows[i].remainingBalance, RequestedDays(dto))) && rows[i].remainingBalance < RequestedDays(dto)
  {
    if dto.startDate > dto.endDate then Err(StartAfterEnd)
    else
      var days := RequestedDays(dto);
      match LeaveTypeOf(types, dto.leaveTypeId)
      case None => Err(InvalidLeaveType)
      case Some(t) =>
        if !t.isActive then Err(InvalidLeaveType)
        else if t.requiresAttachment && !HasText(dto.attachmentPath) then Err(AttachmentRequired)
        else
          var key := LeaveBalance.Key(userId, dto.leaveTypeId, currentYear);
          if LeaveBalance.Sufficient(rows, key, days) then Ok(t)
          else match LeaveBalance.Lookup(rows, key)
            case None => Err(NoBalance(currentYear))
            case Some(i) => Err(Insufficient(rows[i].remainingBalance, days))
  }

  /** The status a new request starts in: awaiting the manager when its
      leave type needs approval, otherwise approved outright. */
  function InitialStatus(t: LeaveTypes.LeaveType): (s: Status)
    ensures s == PendingManager <==> t.requiresApproval
    ensures s == ApprovedHr <==> !t.requiresApproval
  {
    if t.requiresApproval then PendingManager else ApprovedHr
  }

  /** The row `create` inserts. */
  function Filed(id: nat, number: string, userId: nat, dto: NewRequest, t: LeaveTypes.LeaveType, org: Org): (q: LeaveRequest)
    ensures q.id == id && q.userId == userId && q.leaveTypeId == dto.leaveTypeId
    ensures q.status == InitialStatus(t)
    ensures q.totalDays == RequestedDays(dto) && q.totalDays > 0.0
    ensures q.managerId == org.ManagerOf(userId)
    ensures q.attachment.Some? <==> HasText(dto.attachmentPath)
    ensures HasText(dto.attachmentPath) ==> q.attachment == dto.attachmentPath
    ensures q.requestNumber == number && q.startDate == dto.startDate && q.endDate == dto.endDate
    ensures q.isHalfDay == dto.isHalfDay.GetOr(false) && q.halfDayPeriod == dto.halfDayPeriod && q.reason == dto.reason
    ensures q.managerApprovalDate.None? && q.managerNotes.None?
    ensures q.hrOfficerId.None? && q.hrApprovalDate.None? && q.hrNotes.None?
  {
    LeaveRequest(id, number, userId, dto.leaveTypeId, dto.startDate, dto.endDate, RequestedDays(dto),
      dto.isHalfDay.GetOr(false), dto.halfDayPeriod, dto.reason,
      if HasText(dto.attachmentPath) then dto.attachmentPath else None,
      InitialStatus(t), org.ManagerOf(userId), None, None, None, None, None)
  }

  /** The row after `update`: the given fields replace the stored ones, and
      `totalDays` is recomputed from the resulting dates only when a date
      was given. */
  function Edited(q: LeaveRequest, dto: RequestEdit): (r: LeaveRequest)
    ensures r.id == q.id && r.userId == q.userId && r.status == q.status && r.leaveTypeId == q.leaveTypeId
    ensures r.startDate == dto.startDate.GetOr(q.startDate) && r.endDate == dto.endDate.GetOr(q.endDate)
    ensures r.isHalfDay == dto.isHalfDay.GetOr(q.isHalfDay)
    ensures dto.startDate.None? && dto.endDate.None? ==> r.totalDays == q.totalDays
    ensures dto.startDate.Some? || dto.endDate.Some? ==>
      r.totalDays == CalculateDays(r.startDate, r.endDate, r.isHalfDay)
    ensures q.totalDays > 0.0 ==> r.totalDays > 0.0
    ensures r.halfDayPeriod == (if dto.halfDayPeriod.Some? then dto.halfDayPeriod else q.halfDayPeriod)
    ensures r.reason == dto.reason.GetOr(q.reason)
    ensures r.attachment == (if HasText(dto.attachmentPath) then dto.attachmentPath else q.attachment)
    ensures r.(startDate := q.startDate, endDate := q.endDate, totalDays := q.totalDays, isHalfDay := q.isHalfDay,
               halfDayPeriod := q.halfDayPeriod, reason := q.reason, attachment := q.attachment) == q
  {
    var startDate := dto.startDate.GetOr(q.startDate);
    var endDate := dto.endDate.GetOr(q.endDate);
    var isHalfDay := dto.isHalfDay.GetOr(q.isHalfDay);
    var totalDays :=
      if dto.startDate.Some? || dto.endDate.Some? then CalculateDays(startDate, endDate, isHalfDay)
      else q.totalDays;
    q.(startDate := startDate, endDate := endDate, totalDays := totalDays, isHalfDay := isHalfDay,
       halfDayPeriod := if dto.halfDayPeriod.Some? then dto.halfDayPeriod else q.halfDayPeriod,
       reason := dto.reason.GetOr(q.reason),
       attachment := if HasText(dto.attachmentPath) then dto.attachmentPath else q.attachment)
  }

  /** Switching a full-day request to a half day without touching its dates
      keeps the old day count: the stored request then says half day but
      still counts its full days. */
  lemma HalfDaySwitchKeepsTotal(q: LeaveRequest)
    requires !q.isHalfDay && q.totalDays == 3.0
    ensures var r := Edited(q, RequestEdit(None, None, Some(true), None, None, None));
      r.isHalfDay && r.totalDays == 3.0 && r.totalDays != CalculateDays(r.startDate, r.endDate, true)
  {
  }

  /** A notes field written by the ORM from an optional body field: left as
      it was when the field is absent. */
  function Noted(current: Option<string>, given: Option<string>): (r: Option<string>)
    ensures given.Some? ==> r == given
    ensures given.None? ==> r == current
  {
    if given.Some? then given else current
  }

  /** The record `managerApprove` writes first (and returns); the stored
      record is then moved on to `PendingHr`. */
  function ManagerApproved(q: LeaveRequest, managerId: nat, comments: Option<string>, now: Calendar.Instant): (r: LeaveRequest)
    ensures r.status == ApprovedManager && r.managerId == Some(managerId) && r.managerApprovalDate == Some(now)
    ensures r.managerNotes == Noted(q.managerNotes, comments)
    ensures r.(status := q.status, managerId := q.managerId, managerApprovalDate := q.managerApprovalDate,
               managerNotes := q.managerNotes) == q
  {
    q.(status := ApprovedManager, managerId := Some(managerId), managerApprovalDate := Some(now),
       managerNotes := Noted(q.managerNotes, comments))
  }

  function ManagerRejected(q: LeaveRequest, managerId: nat, comments: Option<string>, now: Calendar.Instant): (r: LeaveRequest)
    ensures r.status == RejectedManager && r.managerId == Some(managerId) && r.managerApprovalDate == Some(now)
    ensures r.managerNotes == Noted(q.managerNotes, comments)
    ensures r.(status := q.status, managerId := q.managerId, managerApprovalDate := q.managerApprovalDate,
               managerNotes := q.managerNotes) == q
  {
    q.(status := RejectedManager, managerId := Some(managerId), managerApprovalDate := Some(now),
       managerNotes := Noted(q.managerNotes, comments))
  }

  /** The record HR's decision writes. */
  function HrDecided(q: LeaveRequest, status: Status, hrUserId: nat, comments: Option<string>, now: Calendar.Instant): (r: LeaveRequest)
    ensures r.status == status && r.hrOfficerId == Some(hrUserId) && r.hrApprovalDate == Some(now)
    ensures r.hrNotes == Noted(q.hrNotes, comments)
    ensures r.(status := q.status, hrOfficerId := q.hrOfficerId, hrApprovalDate := q.hrApprovalDate,
               hrNotes := q.hrNotes) == q
  {
    q.(status := status, hrOfficerId := Some(hrUserId), hrApprovalDate := Some(now),
       hrNotes := Noted(q.hrNotes, comments))
  }

  const CancelNotePrefix: string := "Cancelled by user. Reason: "

  function Withdrawn(q: LeaveRequest, reason: string): (r: LeaveRequest)
    ensures r.status == Cancelled && r.hrNotes == Some(CancelNotePrefix + reason)
    ensures r.(status := q.status, hrNotes := q.hrNotes) == q
  {
    q.(status := Cancelled, hrNotes := Some(CancelNotePrefix + reason))
  }

  // ---------------------------------------------------------------------
  // The service
  // ---------------------------------------------------------------------

  /** A request that may rest in the table: it counts a positive number of
      days and is not left in `ApprovedManager`. */
  predicate Settled(q: LeaveRequest) {
    q.totalDays > 0.0 && q.status != ApprovedManager
  }

  /** The request table: settled requests with unique ids below `nextId`. */
  predicate Table(requests: seq<LeaveRequest>, nextId: nat) {
    && (forall i :: 0 <= i < |requests| ==> 0 < requests[i].id < nextId && Settled(requests[i]))
    && (forall i, j :: 0 <= i < j < |requests| ==> requests[i].id != requests[j].id)
  }

  /** Rewriting one request in place, keeping its id, keeps the table. */
  lemma ReplaceKeepsTable(requests: seq<LeaveRequest>, nextId: nat, i: nat, q: LeaveRequest)
    requires Table(requests, nextId) && i < |requests|
    requires q.id == requests[i].id && Settled(q)
    ensures Table(requests[i := q], nextId)
  {
  }

  /** Appending a settled request under `nextId` keeps the table, with
      `nextId` moved past it. */
  lemma AppendKeepsTable(requests: seq<LeaveRequest>, nextId: nat, q: LeaveRequest)
    requires Table(requests, nextId) && q.id == nextId > 0 && Settled(q)
    ensures Table(requests + [q], nextId + 1)
  {
  }

  /** Deleting one request keeps the table. */
  lemma DeleteKeepsTable(requests: seq<LeaveRequest>, nextId: nat, i: nat)
    requires Table(requests, nextId) && i < |requests|
    ensures Table(requests[..i] + requests[i + 1..], nextId)
  {
    var r := requests[..i] + requests[i + 1..];
    assert forall j :: 0 <= j < |r| ==> r[j] == if j < i then requests[j] else requests[j + 1];
  }

  class Workflow {
    var requests: seq<LeaveRequest>
    var nextId: nat
    const ledger: LeaveBalance.Ledger
    const registry: LeaveTypes.Registry

    /** Ids are unique and below `nextId`; every request counts a positive
        number of days; and no request rests in `ApprovedManager`, because
        `managerApprove` always follows that write with `PendingHr`. */
    ghost predicate Valid()
      reads this, ledger, registry
    {
      && ledger.Valid() && registry.Valid()
      && nextId > 0
      && Table(requests, nextId)
    }

    constructor (ledger: LeaveBalance.Ledger, registry: LeaveTypes.Registry)
      requires ledger.Valid() && registry.Valid()
      ensures Valid() && requests == [] && nextId == 1
      ensures this.ledger == ledger && this.registry == registry
    {
      requests := [];
      nextId := 1;
      this.ledger := ledger;
      this.registry := registry;
    }

    function IndexOf(id: nat): (r: Option<nat>)
      reads this
      ensures r.Some? ==> r.value < |requests| && requests[r.value].id == id
      ensures r.None? <==> forall i :: 0 <= i < |requests| ==> requests[i].id != id
    {
      FindFirst(requests, (q: LeaveRequest) => q.id == id)
    }

    /** The guards at the head of `create`, run against the leave-type
        registry and the balance ledger (which is only read). */
    method CheckAdmission(userId: nat, dto: NewRequest, currentYear: int) returns (r: Result<LeaveTypes.LeaveType, Error>)
      requires Valid()
      ensures r == Admission(registry.types, ledger.rows, userId, dto, currentYear)
    {
      if dto.startDate > dto.endDate {
        return Err(StartAfterEnd);
      }
      var totalDays := CalculateDays(dto.startDate, dto.endDate, dto.isHalfDay.GetOr(false));
      var found := LeaveTypeOf(registry.types, dto.leaveTypeId);
      if found.None? || !found.value.isActive {
        return Err(InvalidLeaveType);
      }
      var leaveType := found.value;
      if leaveType.requiresAttachment && !HasText(dto.attachmentPath) {
        return Err(AttachmentRequired);
      }
      var hasBalance := ledger.CheckBalance(userId, dto.leaveTypeId, totalDays, currentYear);
      if !hasBalance {
        var balance := LeaveBalance.Lookup(ledger.rows, LeaveBalance.Key(userId, dto.leaveTypeId, currentYear));
        if balance.None? {
          return Err(NoBalance(currentYear));
        }
        return Err(Insufficient(ledger.rows[balance.value].remainingBalance, totalDays));
      }
      r := Ok(leaveType);
    }

    /** `create`: runs the guards of `Admission`; when they pass, appends a
        request numbered after the requests already filed this year, in the
        status its leave type calls for. The ledger is only read. */
    method Create(userId: nat, dto: NewRequest, org: Org, currentYear: nat) returns (r: Result<LeaveRequest, Error>)
      requires Valid()
      modifies this
      ensures Valid() && ledger.rows == old(ledger.rows) && registry.types == old(registry.types)
      ensures Admission(registry.types, ledger.rows, userId, dto, currentYear).Err? ==>
        && r == Err(Admission(registry.types, ledger.rows, userId, dto, currentYear).error)
        && requests == old(requests) && nextId == old(nextId)
      ensures Admission(registry.types, ledger.rows, userId, dto, currentYear).Ok? ==>
        && r == Ok(Filed(old(nextId), RequestNumber(currentYear, CountForYear(old(requests), currentYear)),
                         userId, dto, Admission(registry.types, ledger.rows, userId, dto, currentYear).value, org))
        && requests == old(requests) + [r.value]
    {
      var admitted := CheckAdmission(userId, dto, currentYear);
      if admitted.Err? {
        return Err(admitted.error);
      }
      var requestNumber := RequestNumber(currentYear, CountForYear(requests, currentYear));
      var request := Filed(nextId, requestNumber, userId, dto, admitted.value, org);
      AppendKeepsTable(requests, nextId, request);
      requests := requests + [request];
      nextId := nextId + 1;
      r := Ok(request);
    }

    /** `update`: only the owner, and only while the request awaits the
        manager. */
    method Update(id: nat, userId: nat, dto: RequestEdit) returns (r: Result<LeaveRequest, Error>)
      requires Valid()
      modifies this
      ensures Valid() && nextId == old(nextId)
      ensures old(IndexOf(id)).None? ==> r == Err(NotFound(id)) && requests == old(requests)
      ensures old(IndexOf(id)).Some? ==>
        var i := old(IndexOf(id)).value;
        var q := old(requests)[i];
        if q.userId != userId then r == Err(NotOwner) && requests == old(requests)
        else if q.status != PendingManager then r == Err(NotPendingManager) && requests == old(requests)
        else requests == old(requests)[i := Edited(q, dto)] && r == Ok(requests[i])
    {
      var found := IndexOf(id);
      if found.None? {
        return Err(NotFound(id));
      }
      var i := found.value;
      if requests[i].userId != userId {
        return Err(NotOwner);
      }
      if requests[i].status != PendingManager {
        return Err(NotPendingManager);
      }
      requests := requests[i := Edited(requests[i], dto)];
      r := Ok(requests[i]);
    }

    /** `managerApprove`: only while awaiting the manager, and only by a
        manager of the requester's department. Writes the approval (and
        returns that record), then moves the stored request on to HR. */
    method ManagerApprove(id: nat, managerId: nat, comments: Option<string>, org: Org, now: Calendar.Instant)
      returns (r: Result<LeaveRequest, Error>)
      requires Valid()
      modifies this
      ensures Valid() && nextId == old(nextId)
      ensures old(IndexOf(id)).None? ==> r == Err(NotFound(id)) && requests == old(requests)
      ensures old(IndexOf(id)).Some? ==>
        var i := old(IndexOf(id)).value;
        var q := old(requests)[i];
        if StatusAfter(q.status, ManagerApproval).None? then r == Err(NotPendingManager) && requests == old(requests)
        else if !org.Manages(managerId, q.userId) then r == Err(NotManager) && requests == old(requests)
        else
          && r == Ok(ManagerApproved(q, managerId, comments, now))
          && requests == old(requests)[i := r.value.(status := StatusAfter(q.status, ManagerApproval).value)]
    {
      var found := IndexOf(id);
      if found.None? {
        return Err(NotFound(id));
      }
      var i := found.value;
      if requests[i].status != PendingManager {
        return Err(NotPendingManager);
      }
      if !org.Manages(managerId, requests[i].userId) {
        return Err(NotManager);
      }
      requests := requests[i := ManagerApproved(requests[i], managerId, comments, now)];
      var updated := requests[i];
      requests := requests[i := requests[i].(status := PendingHr)];
      r := Ok(updated);
    }

    /** `managerReject`: the same guards as approval; the request closes as
        rejected by the manager. */
    method ManagerReject(id: nat, managerId: nat, comments: Option<string>, org: Org, now: Calendar.Instant)
      returns (r: Result<LeaveRequest, Error>)
      requires Valid()
      modifies this
      ensures Valid() && nextId == old(nextId)
      ensures old(IndexOf(id)).None? ==> r == Err(NotFound(id)) && requests == old(requests)
      ensures old(IndexOf(id)).Some? ==>
        var i := old(IndexOf(id)).value;
        var q := old(requests)[i];
        if StatusAfter(q.status, ManagerRejection).None? then r == Err(NotPendingManager) && requests == old(requests)
        else if !org.Manages(managerId, q.userId) then r == Err(NotManager) && requests == old(requests)
        else
          && requests == old(requests)[i := ManagerRejected(q, managerId, comments, now)]
          && r == Ok(requests[i]) && Closed(r.value.status)
    {
      var found := IndexOf(id);
      if found.None? {
        return Err(NotFound(id));
      }
      var i := found.value;
      if requests[i].status != PendingManager {
        return Err(NotPendingManager);
      }
      if !org.Manages(managerId, requests[i].userId) {
        return Err(NotManager);
      }
      requests := requests[i := ManagerRejected(requests[i], managerId, comments, now)];
      r := Ok(requests[i]);
    }

    /** `hrApprove`: only while awaiting HR. Charges the request's days to
        the requester's balance first; when the ledger refuses, the request
        is left as it was and the ledger too. */
    method HrApprove(id: nat, hrUserId: nat, comments: Option<string>, now: Calendar.Instant, currentYear: int)
      returns (r: Result<LeaveRequest, Error>)
      requires Valid()
      modifies this, ledger
      ensures Valid() && nextId == old(nextId) && registry.types == old(registry.types)
      ensures ledger.history == old(ledger.history)
      ensures old(IndexOf(id)).None? ==>
        r == Err(NotFound(id)) && requests == old(requests) && ledger.rows == old(ledger.rows)
      ensures old(IndexOf(id)).Some? ==>
        var i := old(IndexOf(id)).value;
        var q := old(requests)[i];
        var outcome := LeaveBalance.DeductOutcome(old(ledger.rows),
                         LeaveBalance.Key(q.userId, q.leaveTypeId, currentYear), q.totalDays);
        if StatusAfter(q.status, HrApproval).None? then
          r == Err(NotPendingHr) && requests == old(requests) && ledger.rows == old(ledger.rows)
        else if outcome.Err? then
          r == Err(Ledger(outcome.error)) && requests == old(requests) && ledger.rows == old(ledger.rows)
        else
          && ledger.rows == old(ledger.rows)[outcome.value := LeaveBalance.Deducted(old(ledger.rows)[outcome.value], q.totalDays)]
          && requests == old(requests)[i := HrDecided(q, ApprovedHr, hrUserId, comments, now)]
          && r == Ok(requests[i])
    {
      var found := IndexOf(id);
      if found.None? {
        return Err(NotFound(id));
      }
      var i := found.value;
      var request := requests[i];
      if request.status != PendingHr && request.status != ApprovedManager {
        return Err(NotPendingHr);
      }
      var deducted := ledger.DeductBalance(request.userId, request.leaveTypeId, request.totalDays, currentYear);
      if deducted.Err? {
        return Err(Ledger(deducted.error));
      }
      requests := requests[i := HrDecided(request, ApprovedHr, hrUserId, comments, now)];
      r := Ok(requests[i]);
    }

    /** `hrReject`: only while awaiting HR; the ledger is not touched. */
    method HrReject(id: nat, hrUserId: nat, comments: Option<string>, now: Calendar.Instant)
      returns (r: Result<LeaveRequest, Error>)
      requires Valid()
      modifies this
      ensures Valid() && nextId == old(nextId) && ledger.rows == old(ledger.rows)
      ensures old(IndexOf(id)).None? ==> r == Err(NotFound(id)) && requests == old(requests)
      ensures old(IndexOf(id)).Some? ==>
        var i := old(IndexOf(id)).value;
        var q := old(requests)[i];
        if StatusAfter(q.status, HrRejection).None? then r == Err(NotPendingHr) && requests == old(requests)
        else requests == old(requests)[i := HrDecided(q, RejectedHr, hrUserId, comments, now)] && r == Ok(requests[i])
    {
      var found := IndexOf(id);
      if found.None? {
        return Err(NotFound(id));
      }
      var i := found.value;
      if requests[i].status != PendingHr && requests[i].status != ApprovedManager {
        return Err(NotPendingHr);
      }
      requests := requests[i := HrDecided(requests[i], RejectedHr, hrUserId, comments, now)];
      r := Ok(requests[i]);
    }

    /** `cancel`: only the owner; refused once HR approved it and once it is
        closed otherwise. The ledger is not touched. */
    method Cancel(id: nat, userId: nat, reason: string) returns (r: Result<LeaveRequest, Error>)
      requires Valid()
      modifies this
      ensures Valid() && nextId == old(nextId) && ledger.rows == old(ledger.rows)
      ensures old(IndexOf(id)).None? ==> r == Err(NotFound(id)) && requests == old(requests)
      ensures old(IndexOf(id)).Some? ==>
        var i := old(IndexOf(id)).value;
        var q := old(requests)[i];
        if q.userId != userId then r == Err(NotOwner) && requests == old(requests)
        else if q.status == ApprovedHr then r == Err(CannotCancelApproved) && requests == old(requests)
        else if StatusAfter(q.status, Cancellation).None? then r == Err(AlreadyClosed) && requests == old(requests)
        else requests == old(requests)[i := Withdrawn(q, reason)] && r == Ok(requests[i])
    {
      var found := IndexOf(id);
      if found.None? {
        return Err(NotFound(id));
      }
      var i := found.value;
      var request := requests[i];
      if request.userId != userId {
        return Err(NotOwner);
      }
      if request.status == ApprovedHr {
        return Err(CannotCancelApproved);
      }
      if request.status == Cancelled || request.status == RejectedManager || request.status == RejectedHr {
        return Err(AlreadyClosed);
      }
      requests := requests[i := Withdrawn(request, reason)];
      r := Ok(requests[i]);
    }

    /** `remove`: deletes the request unless HR approved it. */
    method Remove(id: nat) returns (r: Result<LeaveRequest, Error>)
      requires Valid()
      modifies this
      ensures Valid() && nextId == old(nextId)
      ensures old(IndexOf(id)).None? ==> r == Err(NotFound(id)) && requests == old(requests)
      ensures old(IndexOf(id)).Some? ==>
        var i := old(IndexOf(id)).value;
        if old(requests)[i].status == ApprovedHr then r == Err(CannotDeleteApproved) && requests == old(requests)
        else r == Ok(old(requests)[i]) && requests == old(requests)[..i] + old(requests)[i + 1..]
    {
      var found := IndexOf(id);
      if found.None? {
        return Err(NotFound(id));
      }
      var i := found.value;
      if requests[i].status == ApprovedHr {
        return Err(CannotDeleteApproved);
      }
      r := Ok(requests[i]);
      DeleteKeepsTable(requests, nextId, i);
      requests := requests[..i] + requests[i + 1..];
    }
  }

  /** HR approving the same request twice: once the first approval went
      through, the second is refused by the status guard and charges the
      ledger nothing more. */
  method HrApproveTwice(w: Workflow, id: nat, hrUserId: nat, now: Calendar.Instant, currentYear: int)
    returns (first: Result<LeaveRequest, Error>, second: Result<LeaveRequest, Error>, ghost between: seq<LeaveBalance.Balance>)
    requires w.Valid()
    modifies w, w.ledger
    ensures w.Valid()
    ensures first.Ok? ==> second == Err(NotPendingHr) && w.ledger.rows == between
  {
    first := w.HrApprove(id, hrUserId, None, now, currentYear);
    between := w.ledger.rows;
    second := w.HrApprove(id, hrUserId, None, now, currentYear);
  }
}
