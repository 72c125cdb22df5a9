/** The leave reports: status buckets and day totals over leave requests,
    per user, per department, per month and per leave type.

    The reports read each request's creation instant, which the database
    stamps on insert; a `RequestRow` is a request as the reports see it.
    "This year" is the caller's `currentYear`. Percentages, which the
    service renders as strings, are not part of this model. */
module Reports {
  import opened Common
  import opened Query
  import opened Calendar
  import LeaveRequests
  import LeaveBalance
  import LeaveTypes

  type Status = LeaveRequests.Status

  datatype RequestRow = RequestRow(
    id: nat,
    userId: nat,
    leaveTypeId: nat,
    status: Status,
    totalDays: real,
    createdAt: Instant)

  /** The request as a report reads it, with the instant it was filed. */
  function AsRow(q: LeaveRequests.LeaveRequest, createdAt: Instant): (r: RequestRow)
    ensures r.id == q.id && r.userId == q.userId && r.leaveTypeId == q.leaveTypeId
    ensures r.status == q.status && r.totalDays == q.totalDays && r.createdAt == createdAt
  {
    RequestRow(q.id, q.userId, q.leaveTypeId, q.status, q.totalDays, createdAt)
  }

  /** `year || currentYear`: a missing year, or 0, means this year. */
  function ReportYear(year: Option<int>, currentYear: int): (y: int)
    ensures year.Some? && year.value != 0 ==> y == year.value
    ensures year.None? || year.value == 0 ==> y == currentYear
  {
    if year.Some? && year.value != 0 then year.value else currentYear
  }

  predicate InYear(y: int, r: RequestRow) {
    YearStart(y) <= r.createdAt <= YearEnd(y)
  }

  predicate Approved(r: RequestRow) {
    r.status == LeaveRequests.ApprovedHr
  }

  /** Waiting for someone: for the manager or for HR. */
  predicate Pending(r: RequestRow) {
    r.status == LeaveRequests.PendingManager || r.status == LeaveRequests.PendingHr
  }

  /** Turned down by the manager or by HR. */
  predicate Rejected(r: RequestRow) {
    r.status == LeaveRequests.RejectedManager || r.status == LeaveRequests.RejectedHr
  }

  /** In any of the three buckets. */
  predicate Bucketed(r: RequestRow) {
    Approved(r) || Pending(r) || Rejected(r)
  }

  function Days(r: RequestRow): real {
    r.totalDays
  }

  // ---------------------------------------------------------------------
  // getUserLeaveHistory: in-memory statistics over the fetched list
  // ---------------------------------------------------------------------

  datatype Statistics = Statistics(
    totalRequests: nat,
    approvedRequests: nat,
    pendingRequests: nat,
    rejectedRequests: nat,
    totalDaysApproved: real)

  /** The three buckets never hold more requests than the list, and they
      hold all of them exactly when no request is cancelled or waiting as
      approved by the manager. */
  lemma {:induction false} BucketsBounded(s: seq<RequestRow>)
    ensures Count(s, Approved) + Count(s, Pending) + Count(s, Rejected) == Count(s, Bucketed)
    ensures Count(s, Bucketed) <= |s|
    ensures Count(s, Bucketed) == |s| <==>
      forall i :: 0 <= i < |s| ==> s[i].status != LeaveRequests.Cancelled && s[i].status != LeaveRequests.ApprovedManager
  {
    var ap := (r: RequestRow) => Approved(r) || Pending(r);
    CountDisjointUnion(s, Approved, Pending, ap);
    CountDisjointUnion(s, ap, Rejected, Bucketed);
    CountBounded(s, Bucketed);
  }

  /** The pending bucket is exactly the requests waiting for the manager
      plus those waiting for HR. */
  lemma PendingCountsBothQueues(s: seq<RequestRow>)
    ensures Count(s, Pending) ==
      Count(s, (r: RequestRow) => r.status == LeaveRequests.PendingManager) + Count(s, (r: RequestRow) => r.status == LeaveRequests.PendingHr)
  {
    CountDisjointUnion(s, (r: RequestRow) => r.status == LeaveRequests.PendingManager, (r: RequestRow) => r.status == LeaveRequests.PendingHr, Pending);
  }

  /** The `statistics` block of `getUserLeaveHistory`. */
  function HistoryStatistics(requests: seq<RequestRow>): (st: Statistics)
    ensures st.totalRequests == |requests|
    ensures st.approvedRequests + st.pendingRequests + st.rejectedRequests <= st.totalRequests
    ensures st.approvedRequests == Count(requests, Approved)
    ensures st.pendingRequests == Count(requests, Pending) && st.rejectedRequests == Count(requests, Rejected)
    ensures st.totalDaysApproved == Sum(Where(requests, Approved), Days)
    ensures (forall i :: 0 <= i < |requests| ==> requests[i].totalDays >= 0.0) ==> st.totalDaysApproved >= 0.0
  {
    BucketsBounded(requests);
    var approved := Where(requests, Approved);
    assert forall i :: 0 <= i < |approved| ==> approved[i] in requests;
    SumNonNegativeOnRows(requests, approved);
    Statistics(
      |requests|,
      |approved|,
      |Where(requests, Pending)|,
      |Where(requests, Rejected)|,
      Sum(approved, Days))
  }

  lemma SumNonNegativeOnRows(requests: seq<RequestRow>, rows: seq<RequestRow>)
    requires forall i :: 0 <= i < |rows| ==> rows[i] in requests
    ensures (forall i :: 0 <= i < |requests| ==> requests[i].totalDays >= 0.0) ==> Sum(rows, Days) >= 0.0
  {
    if forall i :: 0 <= i < |requests| ==> requests[i].totalDays >= 0.0 {
      forall i | 0 <= i < |rows| ensures Days(rows[i]) >= 0.0 {
        var j :| 0 <= j < |requests| && requests[j] == rows[i];
      }
      SumNonNegative(rows, Days);
    }
  }

  /** The `where` of `getUserLeaveHistory`: the user's requests filed in
      year `y`. */
  predicate Mine(userId: nat, y: int, r: RequestRow) {
    r.userId == userId && InYear(y, r)
  }

  /** `getUserLeaveHistory(userId, year?)`: the statistics over the user's
      requests filed in the report year: how many there are, how many sit in
      each bucket, and the days of the approved ones. */
  function UserLeaveHistory(requests: seq<RequestRow>, userId: nat, year: Option<int>, currentYear: int): (st: Statistics)
    ensures var y := ReportYear(year, currentYear);
      && st.totalRequests == Count(requests, r => Mine(userId, y, r))
      && st.approvedRequests == Count(requests, r => Mine(userId, y, r) && Approved(r))
      && st.pendingRequests == Count(requests, r => Mine(userId, y, r) && Pending(r))
      && st.rejectedRequests == Count(requests, r => Mine(userId, y, r) && Rejected(r))
      && st.totalDaysApproved == Sum(Where(requests, r => Mine(userId, y, r) && Approved(r)), Days)
    ensures st.approvedRequests + st.pendingRequests + st.rejectedRequests <= st.totalRequests
  {
    var y := ReportYear(year, currentYear);
    var mine := (r: RequestRow) => Mine(userId, y, r);
    WhereWhere(requests, mine, Approved, r => Mine(userId, y, r) && Approved(r));
    WhereWhere(requests, mine, Pending, r => Mine(userId, y, r) && Pending(r));
    WhereWhere(requests, mine, Rejected, r => Mine(userId, y, r) && Rejected(r));
    HistoryStatistics(Where(requests, mine))
  }

  // ---------------------------------------------------------------------
  // getDepartmentLeaveStats: database counts and one aggregate
  // ---------------------------------------------------------------------

  datatype DepartmentStats = DepartmentStats(
    year: int,
    totalRequests: nat,
    approvedRequests: nat,
    pendingRequests: nat,
    rejectedRequests: nat,
    totalDaysUsed: real)

  /** The user filter of the department report: the department's users
      when a (non-zero) department id names an existing department, and no
      filter at all otherwise. */
  function Members(departmentId: Option<nat>, staff: map<nat, set<nat>>): (m: Option<set<nat>>)
    ensures m.Some? <==> departmentId.Some? && departmentId.value != 0 && departmentId.value in staff
    ensures m.Some? ==> m.value == staff[departmentId.value]
  {
    if departmentId.Some? && departmentId.value != 0 && departmentId.value in staff
    then Some(staff[departmentId.value]) else None
  }

  predicate InScope(members: Option<set<nat>>, y: int, r: RequestRow) {
    InYear(y, r) && (members.Some? ==> r.userId in members.value)
  }

  /** `getDepartmentLeaveStats(departmentId?, year?)`: one count per bucket
      over the requests in scope, and the approved days (`_sum` is null
      over no rows, read as 0). */
  function DepartmentLeaveStats(requests: seq<RequestRow>, departmentId: Option<nat>, year: Option<int>,
                                currentYear: int, staff: map<nat, set<nat>>): (d: DepartmentStats)
    ensures d.year == ReportYear(year, currentYear)
    ensures d.totalRequests == Count(requests, r => InScope(Members(departmentId, staff), d.year, r))
  {
    var y := ReportYear(year, currentYear);
    var m := Members(departmentId, staff);
    DepartmentStats(
      y,
      Count(requests, r => InScope(m, y, r)),
      Count(requests, r => InScope(m, y, r) && Approved(r)),
      Count(requests, r => InScope(m, y, r) && Pending(r)),
      Count(requests, r => InScope(m, y, r) && Rejected(r)),
      AggregateSum(Where(requests, r => InScope(m, y, r) && Approved(r)), Days).GetOr(0.0))
  }

  /** The department report's database counts agree with the in-memory
      statistics over the same requests; in particular its buckets never
      exceed its total. */
  lemma DepartmentStatsMatchHistory(requests: seq<RequestRow>, departmentId: Option<nat>, year: Option<int>,
                                    currentYear: int, staff: map<nat, set<nat>>)
    ensures var d := DepartmentLeaveStats(requests, departmentId, year, currentYear, staff);
      var st := HistoryStatistics(Where(requests, r => InScope(Members(departmentId, staff), d.year, r)));
      && d.totalRequests == st.totalRequests
      && d.approvedRequests == st.approvedRequests
      && d.pendingRequests == st.pendingRequests
      && d.rejectedRequests == st.rejectedRequests
      && d.totalDaysUsed == st.totalDaysApproved
      && d.approvedRequests + d.pendingRequests + d.rejectedRequests <= d.totalRequests
  {
    var y := ReportYear(year, currentYear);
    var m := Members(departmentId, staff);
    var scope := (r: RequestRow) => InScope(m, y, r);
    WhereWhere(requests, scope, Approved, r => InScope(m, y, r) && Approved(r));
    WhereWhere(requests, scope, Pending, r => InScope(m, y, r) && Pending(r));
    WhereWhere(requests, scope, Rejected, r => InScope(m, y, r) && Rejected(r));
  }

  // ---------------------------------------------------------------------
  // getMonthlyLeaveTrend: a loop over the twelve months
  // ---------------------------------------------------------------------

  datatype MonthEntry = MonthEntry(month: nat, totalRequests: nat, approvedRequests: nat, totalDays: real)

  predicate InMonth(y: int, m: Month0, r: RequestRow) {
    MonthStart(y, m) <= r.createdAt <= MonthEnd(y, m)
  }

  /** One entry of the trend: month `m` (0-based) reported as `m + 1`. */
  function MonthFigures(requests: seq<RequestRow>, y: int, m: Month0): (e: MonthEntry)
    ensures e.month == m + 1
    ensures e.totalRequests == Count(requests, r => InMonth(y, m, r))
    ensures e.approvedRequests == Count(requests, r => InMonth(y, m, r) && Approved(r))
    ensures e.approvedRequests <= e.totalRequests
    ensures e.totalDays == Sum(Where(requests, r => InMonth(y, m, r) && Approved(r)), Days)
  {
    CountMonotone(requests, r => InMonth(y, m, r) && Approved(r), r => InMonth(y, m, r));
    MonthEntry(
      m + 1,
      Count(requests, r => InMonth(y, m, r)),
      Count(requests, r => InMonth(y, m, r) && Approved(r)),
      AggregateSum(Where(requests, r => InMonth(y, m, r) && Approved(r)), Days).GetOr(0.0))
  }

  /** `getMonthlyLeaveTrend(year?)`: twelve entries, months 1 to 12 in
      order, each with that month's figures. */
  method MonthlyLeaveTrend(requests: seq<RequestRow>, year: Option<int>, currentYear: int)
    returns (y: int, months: seq<MonthEntry>)
    ensures y == ReportYear(year, currentYear)
    ensures |months| == 12
    ensures forall m :: 0 <= m < 12 ==> months[m].month == m + 1 && months[m] == MonthFigures(requests, y, m)
  {
    y := ReportYear(year, currentYear);
    months := [];
    for month := 0 to 12
      invariant |months| == month
      invariant forall k :: 0 <= k < month ==> months[k] == MonthFigures(requests, y, k)
    {
      months := months + [MonthFigures(requests, y, month)];
    }
  }

  /** Month windows come in order: everything in an earlier month's window
      lies before a later month's window. */
  lemma {:induction false} MonthsInOrder(y: int, m1: Month0, m2: Month0)
    requires m1 < m2
    ensures MonthEnd(y, m1) < MonthStart(y, m2)
    decreases m2 - m1
  {
    MonthsInsideYear(y, m1);
    if m1 + 1 < m2 {
      MonthsInOrder(y, m1 + 1, m2);
      MonthsInsideYear(y, m1 + 1);
    }
  }

  /** A request is counted in at most one month of the trend, and only
      when it was filed inside the report year. */
  lemma MonthsDisjoint(y: int, m1: Month0, m2: Month0, r: RequestRow)
    ensures InMonth(y, m1, r) ==> InYear(y, r)
    ensures m1 != m2 ==> !(InMonth(y, m1, r) && InMonth(y, m2, r))
  {
    MonthsInsideYear(y, m1);
    if m1 < m2 {
      MonthsInOrder(y, m1, m2);
    } else if m2 < m1 {
      MonthsInOrder(y, m2, m1);
    }
  }

  // ---------------------------------------------------------------------
  // getLeaveTypeUtilization: per active leave type
  // ---------------------------------------------------------------------

  datatype TypeUsage = TypeUsage(
    leaveTypeId: nat,
    totalEntitlement: real,
    totalUsed: real,
    totalRemaining: real,
    totalRequests: nat,
    totalDaysApproved: real)

  /** The balance rows of one leave type in one year. */
  function TypeRows(balances: seq<LeaveBalance.Balance>, leaveTypeId: nat, y: int): seq<LeaveBalance.Balance> {
    Where(balances, (b: LeaveBalance.Balance) => b.leaveTypeId == leaveTypeId && b.year == y)
  }

  function Entitlement(b: LeaveBalance.Balance): real { b.totalEntitlement }
  function Used(b: LeaveBalance.Balance): real { b.usedBalance }
  function Unused(b: LeaveBalance.Balance): real { b.totalEntitlement - b.usedBalance }
  function Remaining(b: LeaveBalance.Balance): real { b.remainingBalance }

  /** One entry of the utilization report: summed entitlement and use over
      the type's balances of the year (a missing sum read as 0), what is
      left, and the approved requests of the type over all years. */
  function Usage(t: LeaveTypes.LeaveType, balances: seq<LeaveBalance.Balance>, requests: seq<RequestRow>, y: int): (u: TypeUsage)
    ensures u.leaveTypeId == t.id
    ensures u.totalEntitlement == Sum(TypeRows(balances, t.id, y), Entitlement)
    ensures u.totalUsed == Sum(TypeRows(balances, t.id, y), Used)
    ensures u.totalRemaining == Sum(TypeRows(balances, t.id, y), Unused)
    ensures TypeRows(balances, t.id, y) == [] ==> u.totalEntitlement == 0.0 && u.totalUsed == 0.0 && u.totalRemaining == 0.0
    ensures u.totalRequests == Count(requests, (r: RequestRow) => r.leaveTypeId == t.id && Approved(r))
    ensures u.totalDaysApproved == Sum(Where(requests, (r: RequestRow) => r.leaveTypeId == t.id && Approved(r)), Days)
  {
    var rows := TypeRows(balances, t.id, y);
    var entitlement := AggregateSum(rows, Entitlement).GetOr(0.0);
    var used := AggregateSum(rows, Used).GetOr(0.0);
    SumDifference(rows, Entitlement, Used, Unused);
    var approved := Where(requests, (r: RequestRow) => r.leaveTypeId == t.id && Approved(r));
    TypeUsage(t.id, entitlement, used, entitlement - used, |approved|,
              AggregateSum(approved, Days).GetOr(0.0))
  }

  /** When every balance row of the type keeps remaining == total - used,
      the report's remaining days are the summed remaining balances. */
  lemma RemainingMatchesLedger(t: LeaveTypes.LeaveType, balances: seq<LeaveBalance.Balance>, requests: seq<RequestRow>, y: int)
    requires forall i :: 0 <= i < |balances| ==> balances[i].Consistent()
    ensures Usage(t, balances, requests, y).totalRemaining == Sum(TypeRows(balances, t.id, y), Remaining)
  {
    var rows := TypeRows(balances, t.id, y);
    forall i | 0 <= i < |rows| ensures Unused(rows[i]) == Remaining(rows[i]) {
      var j :| 0 <= j < |balances| && balances[j] == rows[i];
    }
    SumPointwise(rows, Unused, Remaining);
  }

  /** The report entries of `active`, one per type, in order. */
  function Usages(active: seq<LeaveTypes.LeaveType>, balances: seq<LeaveBalance.Balance>,
                  requests: seq<RequestRow>, y: int): (r: seq<TypeUsage>)
    ensures |r| == |active|
    ensures forall i :: 0 <= i < |r| ==> r[i] == Usage(active[i], balances, requests, y)
  {
    if active == [] then []
    else [Usage(active[0], balances, requests, y)] + Usages(active[1..], balances, requests, y)
  }

  /** The `where: { isActive: true }` of the utilization report. */
  predicate Active(t: LeaveTypes.LeaveType) {
    t.isActive
  }

  /** `getLeaveTypeUtilization(year?)`: one entry per active leave type, in
      table order, each holding that type's usage figures for the report
      year. */
  function LeaveTypeUtilization(types: seq<LeaveTypes.LeaveType>, balances: seq<LeaveBalance.Balance>,
                                requests: seq<RequestRow>, year: Option<int>, currentYear: int): (r: seq<TypeUsage>)
    ensures |r| == Count(types, Active)
    ensures forall i :: 0 <= i < |r| ==>
      exists t :: t in types && t.isActive && r[i] == Usage(t, balances, requests, ReportYear(year, currentYear))
    ensures forall i :: 0 <= i < |types| && types[i].isActive ==>
      exists k :: 0 <= k < |r| && r[k] == Usage(types[i], balances, requests, ReportYear(year, currentYear))
  {
    var active := Where(types, Active);
    var y := ReportYear(year, currentYear);
    var r := Usages(active, balances, requests, y);
    EntriesAreActive(types, active, balances, requests, y, r);
    ActiveCovered(types, active, balances, requests, y, r);
    r
  }

  /** Each entry computed over the active types is the usage figure of an
      active type. */
  lemma EntriesAreActive(types: seq<LeaveTypes.LeaveType>, active: seq<LeaveTypes.LeaveType>,
                         balances: seq<LeaveBalance.Balance>, requests: seq<RequestRow>, y: int, r: seq<TypeUsage>)
    requires active == Where(types, Active)
    requires |r| == |active| && forall i :: 0 <= i < |r| ==> r[i] == Usage(active[i], balances, requests, y)
    ensures forall i :: 0 <= i < |r| ==> exists t :: t in types && t.isActive && r[i] == Usage(t, balances, requests, y)
  {
    forall i | 0 <= i < |r| ensures exists t :: t in types && t.isActive && r[i] == Usage(t, balances, requests, y) {
      assert active[i] in types && Active(active[i]);
    }
  }

  /** Every active type has its usage figure among the entries computed
      over the active types. */
  lemma ActiveCovered(types: seq<LeaveTypes.LeaveType>, active: seq<LeaveTypes.LeaveType>,
                      balances: seq<LeaveBalance.Balance>, requests: seq<RequestRow>, y: int, r: seq<TypeUsage>)
    requires active == Where(types, Active)
    requires |r| == |active| && forall i :: 0 <= i < |r| ==> r[i] == Usage(active[i], balances, requests, y)
    ensures forall i :: 0 <= i < |types| && types[i].isActive ==> exists k :: 0 <= k < |r| && r[k] == Usage(types[i], balances, requests, y)
  {
    forall i | 0 <= i < |types| && types[i].isActive ensures exists k :: 0 <= k < |r| && r[k] == Usage(types[i], balances, requests, y) {
      assert Active(types[i]);
      assert types[i] in active;
      var k :| 0 <= k < |active| && active[k] == types[i];
      assert r[k] == Usage(types[i], balances, requests, y);
    }
  }
}
