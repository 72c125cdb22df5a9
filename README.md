# HR leave backend: a verified Dafny model

This project models the business core of an HR leave-management backend
written as NestJS services over a Prisma database. It covers:

- the **leave-balance ledger**: one balance row per user, leave type and
  year, plus an append-only history of manual adjustments;
- the **leave-request workflow**: filing a request; approval or rejection
  by the department manager and then by HR; editing, cancelling and deleting
  by the owner;
- the **leave-type registry**: defaults on create, an on/off toggle, and a
  soft delete;
- the **department tree**: unique codes, and a parent chain kept free of
  loops;
- the **annual-holiday calendar**: one-day holidays and the day and range
  overlap queries;
- the **notification inbox**: per-recipient read state, ownership checks
  and pagination;
- the **user directory**: the page/limit clamp, unique logins and e-mails,
  and user-role pairs;
- the **leave reports**: status buckets, day totals, the monthly trend and
  per-type utilization.

Each service becomes one module. A table the service updates in place
becomes a `class` whose fields are `seq` or `map` values, with a `Valid()`
invariant and `modifies this` on its methods. Filters, sorts and
aggregations become functions over sequences (module `Query`), each proved
against an independent property. Loops in the source stay loops:

- `initializeUserBalances` walks the active leave types;
- `ensureNoHierarchyLoop` walks up the parent chain;
- `getMonthlyLeaveTrend` pushes one entry per month.

Modelling conventions:

- **Inputs from outside the service are parameters.** These are the clock
  (`now`, `currentYear`), the password hash, and the tables another
  service owns (users, departments, roles, department membership).
- **Day quantities are `real`.** A half day is 0.5.
- **Instants are integer milliseconds on a local clock** (module
  `Calendar`).
- **JavaScript truthiness is written out.** `x || d`, `x ?? d` and `if (id)`
  become `GetOr`, `Given` and `HasText`. An update field that is left out,
  null or set is `Keep`, `Clear` or `Set` (`Patch`).

Where the code and its design intent differ, the model follows the code,
and the lemmas below make the difference visible:

- **`adjustBalance` moves only the total.** Remaining days are not
  recomputed, so a non-zero adjustment breaks `remaining == total - used`
  (`LeaveBalance.AdjustBreaksConsistency`).
- **A new balance row may start with days already used.**
- **A leave type with `requiresApproval` false files its requests as
  `approved_hr` directly.** Nothing is deducted from the balance on that
  path.
- **No stored request is ever `approved_manager`.** `managerApprove` writes
  `approved_manager` and immediately overwrites it with `pending_hr`. HR
  still accepts `approved_manager`, and the reports count it in no bucket.
- **A half-day switch without new dates keeps the old day count.** Editing
  `isHalfDay` alone leaves `totalDays` unchanged
  (`LeaveRequests.HalfDaySwitchKeepsTotal`).
- **Day and month windows end at hh:59:59.000.** A holiday in the last
  second of its day is not a holiday of that day
  (`AnnualHolidays.CreateThenAsk`). A request filed in the last second of
  a month counts in no month of the trend.
- **An unknown department id in the department report applies no user
  filter.** The report then covers every user.
- **The utilization report counts approved requests of all years.** Only
  the balance sums are restricted to the report year.

## Model

| member | source | states |
|---|---|---|
| LeaveBalance.Opened | src/hr/leave-balance/leave-balance.service.ts:131-134 | the new row's total is base plus carry-over; used and carry-over default to 0; remaining == total - used |
| LeaveBalance.Initial | src/hr/leave-balance/leave-balance.service.ts:177-186 | a row opened by initialization has used 0, carried 0 and remaining == total == the type's annual entitlement |
| LeaveBalance.Deducted | src/hr/leave-balance/leave-balance.service.ts:281-290 | used grows by the days, remaining is recomputed as total - used (so it drops by the days on a consistent row), the key and total stay |
| LeaveBalance.Restored | src/hr/leave-balance/leave-balance.service.ts:332-341 | used becomes max(0, used - days), never negative; remaining == total - used afterwards |
| LeaveBalance.Adjusted | src/hr/leave-balance/leave-balance.service.ts:221-234 | only the total moves by delta; used and remaining stay as they were |
| LeaveBalance.DeductThenRestore | src/hr/leave-balance/leave-balance.service.ts:281-282 | restoring what was deducted gives back the days used, and the whole row when it was consistent |
| LeaveBalance.AdjustBreaksConsistency | src/hr/leave-balance/leave-balance.service.ts:230-234 | a non-zero adjustment of a consistent row leaves remaining != total - used |
| LeaveBalance.Lookup | src/hr/leave-balance/leave-balance.service.ts:263-269 | the first row with the (user, type, year) key, and None exactly when no row has it |
| LeaveBalance.LookupConcat | src/hr/leave-balance/leave-balance.service.ts:168-176 | a key is missing from a concatenation iff it is missing from both parts |
| LeaveBalance.NotesMeta | src/hr/leave-balance/leave-balance.service.ts:250 | the history meta holds the notes exactly when they are given and non-empty |
| LeaveBalance.DeductOutcome | src/hr/leave-balance/leave-balance.service.ts:271-279 | NoBalance iff no row has the key; any other refusal is Insufficient(remaining, days) for a row of the key holding fewer days; otherwise the index of a covering row |
| LeaveBalance.Sufficient | src/hr/leave-balance/leave-balance.service.ts:307-311 | the balance check is true exactly when a deduction of the same days would succeed |
| LeaveBalance.SufficientIffRowCovers | src/hr/leave-balance/leave-balance.service.ts:296-312 | with unique keys, the check holds iff some row for the key has remaining >= days |
| LeaveBalance.NewestFirst | src/hr/leave-balance/leave-balance.service.ts:350-362 | every history entry of the balance and no other, newest first: entry i is the balance's i-th entry counted back from the latest, and the length is their count |
| LeaveBalance.AppendedEntryComesFirst | src/hr/leave-balance/leave-balance.service.ts:242-252 | the entry an adjustment appends is listed first, ahead of the earlier entries in their order |
| LeaveBalance.InitStep | src/hr/leave-balance/leave-balance.service.ts:166-190 | one loop pass keeps the progress invariant: the type is covered, and a row is added only when it was missing |
| LeaveBalance.InitDone | src/hr/leave-balance/leave-balance.service.ts:160-190 | after the loop every active type is covered, every new row is an initial row for an active type that was missing, and a covered table gets nothing |
| LeaveBalance.DeleteKeepsKeys | src/hr/leave-balance/leave-balance.service.ts:371-373 | deleting a row keeps ids and keys unique |
| LeaveBalance.Ledger.FindOne | src/hr/leave-balance/leave-balance.service.ts:47-74 | NotFound iff no row has the id; otherwise a row with that id |
| LeaveBalance.Ledger.Create | src/hr/leave-balance/leave-balance.service.ts:113-151 | refuses an existing (user, type, current year) row and changes nothing; otherwise appends the Opened row |
| LeaveBalance.Ledger.OpenIfMissing | src/hr/leave-balance/leave-balance.service.ts:168-189 | appends the Initial row only when the key is missing; afterwards the key is present |
| LeaveBalance.Ledger.InitializeUserBalances | src/hr/leave-balance/leave-balance.service.ts:156-197 | existing rows untouched, every active type covered, only missing initial rows appended, none when all were covered |
| LeaveBalance.Ledger.AdjustBalance | src/hr/leave-balance/leave-balance.service.ts:218-255 | NotFound or a negative new total changes nothing; otherwise the row is Adjusted and exactly one history entry {delta, before, after} is appended |
| LeaveBalance.Ledger.DeductBalance | src/hr/leave-balance/leave-balance.service.ts:260-291 | fails as DeductOutcome says, changing nothing; otherwise only the covering row becomes Deducted |
| LeaveBalance.Ledger.CheckBalance | src/hr/leave-balance/leave-balance.service.ts:296-312 | true iff a deduction of the same days would succeed; reads only |
| LeaveBalance.Ledger.RestoreBalance | src/hr/leave-balance/leave-balance.service.ts:317-342 | NotFound when no row has the key; otherwise only that row becomes Restored |
| LeaveBalance.Ledger.GetBalanceHistory | src/hr/leave-balance/leave-balance.service.ts:347-363 | NotFound iff no balance has the id; otherwise every entry of that balance and only those, newest first (NewestFirst) |
| LeaveBalance.Ledger.Remove | src/hr/leave-balance/leave-balance.service.ts:368-374 | NotFound changes nothing; otherwise exactly that row is deleted |
| LeaveBalance.InitializeTwice | src/hr/leave-balance/leave-balance.service.ts:176 | a second initialization creates nothing and leaves the table as the first one left it |
| LeaveBalance.DeductThenRestoreOnLedger | src/hr/leave-balance/leave-balance.service.ts:281-282 | deduct then restore of the same days on consistent rows leaves the table unchanged |
| LeaveRequests.Org.ManagerOf | src/hr/leave-requests/leave-requests.service.ts:315-324 | the manager stored on a new request is the manager of the requester's department, when there is one |
| LeaveRequests.CeilDays | src/hr/leave-requests/leave-requests.service.ts:51 | the least whole number of days covering a duration |
| LeaveRequests.CalculateDays | src/hr/leave-requests/leave-requests.service.ts:41-54 | 0.5 for a half day; otherwise a whole number >= 1, namely the least n with (n - 1) days covering the gap |
| LeaveRequests.CalculateDaysSymmetric | src/hr/leave-requests/leave-requests.service.ts:50 | swapping start and end gives the same count |
| LeaveRequests.RequestNumber | src/hr/leave-requests/leave-requests.service.ts:26-36 | "LR" + year, then the digits of count + 1 zero-padded to exactly five (more only when count + 1 has more), whose decimal value is count + 1 |
| LeaveRequests.StatusAfter | src/hr/leave-requests/leave-requests.service.ts:427-681 | the status guards: closed states accept nothing; approved_hr is reached only by HR approval from pending_hr or approved_manager; cancel accepted iff pending or approved_manager |
| LeaveRequests.ActionsLowerRank | src/hr/leave-requests/leave-requests.service.ts:430-680 | every accepted action strictly lowers the status rank, so each request closes after at most two actions |
| LeaveRequests.LeaveTypeOf | src/hr/leave-requests/leave-requests.service.ts:270-272 | the leave type with the id, None iff none has it |
| LeaveRequests.Admission | src/hr/leave-requests/leave-requests.service.ts:262-312 | create's guards in order: passes iff start <= end, the type exists and is active, a required attachment is given, and the balance check holds; otherwise the first failing guard decides the error: StartAfterEnd, InvalidLeaveType (missing or inactive type), AttachmentRequired, then NoBalance when no balance row exists or Insufficient with the row's remaining days, which are fewer than asked |
| LeaveRequests.InitialStatus | src/hr/leave-requests/leave-requests.service.ts:327-329 | pending_manager iff the type requires approval, approved_hr otherwise |
| LeaveRequests.Filed | src/hr/leave-requests/leave-requests.service.ts:335-349 | the new row: the given number, owner, type, dates, reason and half-day period; isHalfDay defaults to false; the initial status; the computed positive day count; the requester's manager; the attachment path iff non-empty; no approval date, notes or HR fields yet |
| LeaveRequests.Edited | src/hr/leave-requests/leave-requests.service.ts:393-411 | given dates, half-day flag and period, and reason replace the stored ones; the attachment only when a non-empty path is given; totalDays recomputed from the resulting dates only when a date is given; every other field unchanged |
| LeaveRequests.HalfDaySwitchKeepsTotal | src/hr/leave-requests/leave-requests.service.ts:393-399 | switching to a half day without dates keeps a 3-day count that no longer matches the half-day rule |
| LeaveRequests.Noted | src/hr/leave-requests/leave-requests.service.ts:457 | an absent comment leaves the stored notes as they were |
| LeaveRequests.ManagerApproved | src/hr/leave-requests/leave-requests.service.ts:451-468 | status approved_manager, the approving manager, the instant and notes; nothing else changes |
| LeaveRequests.ManagerRejected | src/hr/leave-requests/leave-requests.service.ts:543-554 | status rejected_manager, the rejecting manager, the instant, and the comments as manager notes (absent comments keep the old notes); nothing else changes |
| LeaveRequests.HrDecided | src/hr/leave-requests/leave-requests.service.ts:586-633 | the given status, HR officer, instant and notes; nothing else changes |
| LeaveRequests.Withdrawn | src/hr/leave-requests/leave-requests.service.ts:674-680 | status cancelled and the cancel note with the reason; nothing else changes |
| LeaveRequests.ReplaceKeepsTable | src/hr/leave-requests/leave-requests.service.ts:401-421 | rewriting a row under its id keeps ids unique and rows settled |
| LeaveRequests.AppendKeepsTable | src/hr/leave-requests/leave-requests.service.ts:335-359 | appending a settled row under the next id keeps the table |
| LeaveRequests.DeleteKeepsTable | src/hr/leave-requests/leave-requests.service.ts:694-696 | deleting a row keeps the table |
| LeaveRequests.Workflow.IndexOf | src/hr/leave-requests/leave-requests.service.ts:126-167 | the position of the request with the id; None iff no request has it |
| LeaveRequests.Workflow.CheckAdmission | src/hr/leave-requests/leave-requests.service.ts:262-312 | runs the guards against the registry and ledger and returns exactly Admission |
| LeaveRequests.Workflow.Create | src/hr/leave-requests/leave-requests.service.ts:257-374 | a failed guard adds nothing; otherwise appends the Filed row numbered from this year's count; the ledger is not written |
| LeaveRequests.Workflow.Update | src/hr/leave-requests/leave-requests.service.ts:379-422 | NotFound, NotOwner, NotPendingManager change nothing; otherwise the row becomes Edited |
| LeaveRequests.Workflow.ManagerApprove | src/hr/leave-requests/leave-requests.service.ts:427-514 | refused unless pending_manager and the actor manages the requester; returns the approved_manager record and stores it as pending_hr |
| LeaveRequests.Workflow.ManagerReject | src/hr/leave-requests/leave-requests.service.ts:519-566 | same guards; the request closes as rejected_manager |
| LeaveRequests.Workflow.HrApprove | src/hr/leave-requests/leave-requests.service.ts:571-609 | refused unless pending_hr or approved_manager; a refused deduction leaves request and ledger unchanged; otherwise the days are deducted and the request becomes approved_hr |
| LeaveRequests.Workflow.HrReject | src/hr/leave-requests/leave-requests.service.ts:614-645 | refused unless awaiting HR; becomes rejected_hr; the ledger is untouched |
| LeaveRequests.Workflow.Cancel | src/hr/leave-requests/leave-requests.service.ts:650-681 | NotOwner, approved_hr, and closed states refuse with no change; otherwise cancelled; the ledger is untouched |
| LeaveRequests.Workflow.Remove | src/hr/leave-requests/leave-requests.service.ts:686-697 | refused only for approved_hr; otherwise exactly that request is deleted |
| LeaveRequests.HrApproveTwice | src/hr/leave-requests/leave-requests.service.ts:574-583 | after a successful HR approval, a second one is refused and deducts nothing |
| LeaveTypes.FromRequest | src/hr/leave-types/leave-types.service.ts:54-69 | name, code, description and entitlement copied; each optional flag and limit is the given value or its own default (approval, paid, active true; attachment, salary, carry-over false; both day limits 0) |
| LeaveTypes.ByNameIsTotalPreorder | src/hr/leave-types/leave-types.service.ts:22 | ordering by name is total and transitive |
| LeaveTypes.Registry.FindOne | src/hr/leave-types/leave-types.service.ts:29-39 | NotFound iff no type has the id |
| LeaveTypes.Registry.FindAll | src/hr/leave-types/leave-types.service.ts:13-24 | sorted by name, and the same rows as the flag filter (all types when absent), each as often as the table holds it |
| LeaveTypes.Registry.Create | src/hr/leave-types/leave-types.service.ts:44-70 | a code in use is refused with no change; otherwise the FromRequest row is appended |
| LeaveTypes.Registry.ToggleActive | src/hr/leave-types/leave-types.service.ts:87-94 | NotFound changes nothing; otherwise only isActive of that row is negated |
| LeaveTypes.Registry.Remove | src/hr/leave-types/leave-types.service.ts:99-107 | no row is deleted; the row becomes inactive; removing an inactive type changes nothing |
| LeaveTypes.ToggleTwice | src/hr/leave-types/leave-types.service.ts:87-94 | toggling twice restores the registry |
| Departments.ReachesRankBelow | src/departments/departments.service.ts:94-104 | every department a parent chain reaches has a rank no greater than the one it starts from |
| Departments.NoSelfAncestor | src/departments/departments.service.ts:94-104 | in a ranked table no department lies on its own parent chain |
| Departments.ReparentKeepsRanked | src/departments/departments.service.ts:125-152 | giving a department a new parent that does not lie below it keeps the hierarchy loop-free |
| Departments.RewriteKeepsRanked | src/departments/departments.service.ts:144-155 | rewriting a department with its old parent or none keeps the hierarchy loop-free |
| Departments.FoundKeepsRanked | src/departments/departments.service.ts:60-69 | adding a department below an existing parent or none keeps the hierarchy loop-free |
| Departments.Founded | src/departments/departments.service.ts:60-69 | isActive defaults to true; description, parent and manager are stored as given (absent means null) |
| Departments.Revised | src/departments/departments.service.ts:144-155 | a left-out field stays; null clears description, parent and manager; a given value replaces; name, code and isActive replaced only when given |
| Departments.Directory.EnsureNoHierarchyLoop | src/departments/departments.service.ts:89-105 | SelfParent when the parent is the department; otherwise HierarchyLoop iff the department is on the new parent's chain |
| Departments.Directory.Create | src/departments/departments.service.ts:34-70 | CodeTaken for a taken code, then ParentNotFound for an unknown parent, then ManagerNotFound for a manager who is not a user; succeeds iff none applies, inserting the Founded row |
| Departments.Directory.UpdateRefusal | src/departments/departments.service.ts:108-142 | update's checks in order, each pinned: NotFound, CodeTaken, ParentNotFound, SelfParent, HierarchyLoop iff the department lies on the new parent's chain, ManagerNotFound; none iff the update is admitted |
| Departments.Directory.CheckUpdate | src/departments/departments.service.ts:108-142 | returns exactly UpdateRefusal: no error iff the department exists, a non-empty new code is free, a new parent exists without a loop, and a new manager exists |
| Departments.Directory.Update | src/departments/departments.service.ts:107-156 | succeeds iff the checks pass, refusing otherwise with UpdateRefusal's error and no change; the row becomes Revised and the hierarchy stays loop-free |
| Departments.Directory.Remove | src/departments/departments.service.ts:158-183 | HasUsers while users belong to it, then HasChildren while departments hang below it, then NotFound for an unknown id; otherwise exactly that department goes |
| AnnualHolidays.Declared | src/hr/annual-holidays/annual-holidays.service.ts:90-106 | name, kind and description as given; start == end == the date, one day; recurring only when asked |
| AnnualHolidays.Amended | src/hr/annual-holidays/annual-holidays.service.ts:111-129 | a given name, kind, description or recurring flag replaces the stored one, a left-out one stays; totalDays 1; a date moves start and end together; no date leaves both |
| AnnualHolidays.ByStartIsTotalPreorder | src/hr/annual-holidays/annual-holidays.service.ts:42 | ordering by start date is a total preorder |
| AnnualHolidays.HolidayTable.FindOne | src/hr/annual-holidays/annual-holidays.service.ts:75-85 | NotFound iff no holiday has the id |
| AnnualHolidays.HolidayTable.FindAll | src/hr/annual-holidays/annual-holidays.service.ts:24-44 | sorted by start; the same rows as the filter on the year window (when a year is given) and the kind (when given), each as often as the table holds it |
| AnnualHolidays.HolidayTable.Between | src/hr/annual-holidays/annual-holidays.service.ts:166-178 | sorted by start; the same rows as the filter start <= b and end >= a, each as often as the table holds it |
| AnnualHolidays.HolidayTable.Upcoming | src/hr/annual-holidays/annual-holidays.service.ts:57-70 | at most the limit, sorted, all from today's midnight on, no row more often than the table holds it; an eligible holiday is left out only when the page is full of no-later ones |
| AnnualHolidays.FirstFrom | src/hr/annual-holidays/annual-holidays.service.ts:61-69 | the first `limit` holidays starting at or after the given midnight, earliest first, no row more often than the table holds it; a left-out eligible holiday means the page is full of no-later ones |
| AnnualHolidays.HolidayTable.Create | src/hr/annual-holidays/annual-holidays.service.ts:90-106 | appends the Declared row under the next id |
| AnnualHolidays.HolidayTable.Update | src/hr/annual-holidays/annual-holidays.service.ts:111-129 | NotFound changes nothing; otherwise that row becomes Amended |
| AnnualHolidays.HolidayTable.Remove | src/hr/annual-holidays/annual-holidays.service.ts:134-140 | NotFound changes nothing; otherwise exactly that row is deleted |
| AnnualHolidays.IsHolidayIffBetween | src/hr/annual-holidays/annual-holidays.service.ts:145-161 | a day is a holiday iff some holiday overlaps it iff the range query over the day is non-empty |
| AnnualHolidays.SingleDayHoliday | src/hr/annual-holidays/annual-holidays.service.ts:145-161 | with one-day holidays, a day is a holiday iff some holiday starts between its midnight and 23:59:59.000 |
| AnnualHolidays.CreateThenAsk | src/hr/annual-holidays/annual-holidays.service.ts:145-161 | a new holiday makes its date a holiday, except in the last second of the day |
| Notifications.KindOrSystem | src/notifications/notifications.service.ts:24 | the given non-empty kind, else "system" |
| Notifications.CeilDiv | src/notifications/notifications.service.ts:57 | the least page count whose pages hold all rows |
| Notifications.PagesCover | src/notifications/notifications.service.ts:34-57 | row k lies on page k / limit + 1, within 1..totalPages, inside that page's skip window |
| Notifications.ReadAll | src/notifications/notifications.service.ts:101-110 | exactly the unread rows of the user become read at now; every other row is unchanged |
| Notifications.ReadAllLeavesNoUnread | src/notifications/notifications.service.ts:100-113 | after marking all read, the user has no unread row |
| Notifications.ReadAllIdempotent | src/notifications/notifications.service.ts:100-113 | marking all read twice equals marking once |
| Notifications.Inbox.Create | src/notifications/notifications.service.ts:12-28 | appends an unread notification with KindOrSystem |
| Notifications.Inbox.UnreadCount | src/notifications/notifications.service.ts:65-74 | the number of the user's unread notifications, 0 iff there is none |
| Notifications.Inbox.FindByUser | src/notifications/notifications.service.ts:33-60 | total counts the user's matching rows; the page is the newest-first window of those rows from skip = (page-1)*limit, at most limit long; every row on it is a matching row of the table; totalPages is the ceiling of total / limit |
| Notifications.Inbox.MarkAsRead | src/notifications/notifications.service.ts:79-95 | NotFound unless the id belongs to the user, no change; otherwise only that row becomes read at now |
| Notifications.Inbox.MarkAllAsRead | src/notifications/notifications.service.ts:100-113 | the table becomes ReadAll and the unread count is 0 |
| Notifications.Inbox.Delete | src/notifications/notifications.service.ts:118-130 | NotFound unless owned, no change; otherwise exactly that row goes |
| Notifications.MarkTwice | src/notifications/notifications.service.ts:88-94 | a second mark succeeds iff the first did, stays read, only readAt moves |
| Users.ListWindow | src/users/users.service.ts:22-24 | page >= 1, 1 <= limit <= 50, skip >= 0; defaults 1 and 10; in-range values kept |
| Users.Enrolled | src/users/users.service.ts:117-141 | the new row under the id: login, e-mail, display name, department and hash as given; active unless told otherwise |
| Users.Edited | src/users/users.service.ts:163-183 | given e-mail and active flag replace stored ones; display name and department are kept when left out, cleared by null and replaced when given; an empty password keeps the hash; id and login stay |
| Users.RewriteKeepsWellKept | src/users/users.service.ts:148-153 | rewriting a row with the same id and login and an e-mail nobody else holds keeps logins and e-mails unique |
| Users.DeleteKeepsWellKept | src/users/users.service.ts:193-198 | deleting a user keeps ids rising and logins and e-mails unique |
| Users.Directory.List | src/users/users.service.ts:15-64 | the clamped window of ListWindow; total counts the matches; items are the newest-first window of the matching users (highest id first) from the window's skip, at most limit long |
| Users.Directory.Create | src/users/users.service.ts:98-142 | LoginTaken, then EmailTaken, then DepartmentNotFound for a given department that does not exist; succeeds iff none applies, appending Enrolled |
| Users.Directory.Update | src/users/users.service.ts:144-191 | NotFound; EmailTaken when another user holds the new e-mail; otherwise DepartmentNotFound for a department set to a non-zero id that does not exist; succeeds iff neither applies, and the row becomes Edited |
| Users.Directory.Remove | src/users/users.service.ts:193-198 | NotFound changes nothing; otherwise exactly that user goes |
| Users.Directory.SetActive | src/users/users.service.ts:200-214 | NotFound changes nothing; otherwise only isActive of that user is set |
| Users.Directory.AssignRole | src/users/users.service.ts:216-234 | unknown user, then unknown role refused; otherwise the pair is present and an existing pair is kept as it was |
| Users.Directory.RemoveRole | src/users/users.service.ts:236-247 | unknown role refused; succeeds iff the pair existed; the pair is absent afterwards |
| Users.AssignTwice | src/users/users.service.ts:227-231 | assigning twice gives the same answer and adds the pair at most once |
| Users.AssignThenRemove | src/users/users.service.ts:227-244 | assigning then removing a role takes the pair away |
| Reports.AsRow | src/hr/reports/reports.service.ts:410-427 | a report row carries the request's id, owner, type, status and days |
| Reports.ReportYear | src/hr/reports/reports.service.ts:118 | the given year unless absent or 0, then the current year |
| Reports.BucketsBounded | src/hr/reports/reports.service.ts:452-461 | approved + pending + rejected == the bucketed count <= the total, with equality iff nothing is cancelled or approved_manager |
| Reports.PendingCountsBothQueues | src/hr/reports/reports.service.ts:454-457 | pending == pending_manager count + pending_hr count |
| Reports.HistoryStatistics | src/hr/reports/reports.service.ts:451-465 | total is the list length; approved, pending and rejected count approved_hr, the two pending states and the two rejected states; approved days are the sum over approved_hr, non-negative for non-negative rows |
| Reports.SumNonNegativeOnRows | src/hr/reports/reports.service.ts:462-464 | summed days of rows drawn from non-negative requests are non-negative |
| Reports.UserLeaveHistory | src/hr/reports/reports.service.ts:380-467 | over the user's requests filed in the report year: their number, each bucket's count, and the summed days of the approved ones |
| Reports.Members | src/hr/reports/reports.service.ts:129-144 | a user filter only for a non-zero id of an existing department |
| Reports.DepartmentLeaveStats | src/hr/reports/reports.service.ts:117-187 | the report year, and total counts the requests in scope |
| Reports.DepartmentStatsMatchHistory | src/hr/reports/reports.service.ts:146-182 | the database counts and `_sum || 0` equal the in-memory statistics over the same requests; buckets <= total |
| Reports.MonthFigures | src/hr/reports/reports.service.ts:259-300 | month m reported as m + 1; total counts requests in the month window; approved counts the approved_hr ones among them; days sum their days, 0 when none |
| Reports.MonthlyLeaveTrend | src/hr/reports/reports.service.ts:254-307 | twelve entries, months 1..12 in order, each with that month's figures |
| Reports.MonthsInOrder | src/hr/reports/reports.service.ts:259-260 | an earlier month's window ends before a later one starts |
| Reports.MonthsDisjoint | src/hr/reports/reports.service.ts:259-260 | a request counts in at most one month, and only inside the report year |
| Reports.Usage | src/hr/reports/reports.service.ts:322-367 | entitlement, used and remaining are the sums over the type's balance rows of the year (0 with no rows); requests and approved days count and sum the type's approved requests |
| Reports.RemainingMatchesLedger | src/hr/reports/reports.service.ts:361 | on consistent balance rows the reported remaining equals the summed remaining balances |
| Reports.Usages | src/hr/reports/reports.service.ts:321-369 | one entry per active type, in order, entry i being that type's Usage |
| Reports.LeaveTypeUtilization | src/hr/reports/reports.service.ts:312-375 | exactly one entry per active type: every entry is the Usage of an active type and every active type has its Usage among the entries |
| Reports.EntriesAreActive | src/hr/reports/reports.service.ts:316-321 | every entry computed over the active types is the Usage of an active type |
| Reports.ActiveCovered | src/hr/reports/reports.service.ts:316-321 | every active type's Usage is among the entries computed over the active types |
| Text.NatToString | src/hr/leave-requests/leave-requests.service.ts:35 | decimal digits, no leading zero |
| Text.DecimalRoundTrip | src/hr/leave-requests/leave-requests.service.ts:35 | reading back the decimal string gives the number |
| Text.PadStart | src/hr/leave-requests/leave-requests.service.ts:35 | at least the width, the string at the end, fill before it |
| Text.ZeroPaddedValue | src/hr/leave-requests/leave-requests.service.ts:35 | zero padding keeps the digits' value |
| Text.LexLeTotal | src/hr/leave-types/leave-types.service.ts:22 | the name order is total |
| Text.LexLeTransitive | src/hr/leave-types/leave-types.service.ts:22 | the name order is transitive |
| Calendar.StartOfDay | src/hr/annual-holidays/annual-holidays.service.ts:146 | the midnight of the day holding the instant |
| Calendar.SameDay | src/hr/annual-holidays/annual-holidays.service.ts:146 | instants on one day share their midnight |
| Calendar.YearLength | src/hr/reports/reports.service.ts:119-120 | a year has 366 days iff it is a leap year |
| Calendar.MonthLength | src/hr/reports/reports.service.ts:259-260 | each month window spans its number of days |
| Calendar.MonthsInsideYear | src/hr/reports/reports.service.ts:259-260 | month windows lie inside the year window, one after another |
| Query.OrderBy | src/hr/annual-holidays/annual-holidays.service.ts:42 | sorted and a permutation of the input |
| Query.Page | src/notifications/notifications.service.ts:44-45 | skip then take: the length and the rows at skip + i |
| Query.NewestFirstPage | src/users/users.service.ts:41-43 | a page of the newest-first view holds rows of the table in falling key order |
| Query.WhereKeepsOrder | src/users/users.service.ts:40-43 | filtering keeps rows in rising key order |
| Query.NewestFirstWindow | src/notifications/notifications.service.ts:44-46 | the skip/take page of a table read newest first: its length, and row i is the table's (skip + i)-th row counted back from the last |

## Left out

- Controllers, route guards, role decorators and DTO validation. Roles are
  not checked in the services themselves.
- Authentication: password hashing and tokens. The stored hash is an opaque
  parameter.
- The seed script, activity logs and the roles service.
- Notification side effects inside the leave-request transitions: the
  messages, and the loop over HR users in `managerApprove`.
- The clock, `Date` parsing, time zones and daylight saving. Instants are
  local milliseconds, and `now` and `currentYear` are parameters.
- Concurrency: `Promise.all` fan-out, and the race between the balance
  check in create and the deduction in HR approval. Each operation is one
  sequential step.
- Floating point: day counts are exact reals. Percentage strings
  (`toFixed`) and month names (`toLocaleString`) are not modelled.
- The raw `update` of a leave balance and of a leave type. They write any
  field the request carries, and no invariant constrains them.
- Request-number uniqueness. Numbers count this year's requests, so a
  number can repeat after a deletion; no uniqueness is claimed.
- Read-only projections:
  - the leave-balance listings `findAll` and `getUserBalances`;
  - department `list`, `getById` and `getUsers`;
  - user `getById`;
  - leave-request `findAll` and `findOne` beyond the NotFound lookup.
- Other reports: the summary, the employee balance report and the top
  requesters report.
- `getCurrentYearHolidays`, which is `findAll` with the current year.
- The holidays service's private `calculateDays`, which nothing calls.
- The user list's text search: a case-insensitive contains over login,
  e-mail and display name.
- User profile fields copied verbatim, and `setAvatarUrl` and
  `setSignatureUrl`.
- LeaveTypes.Registry.FindAll: names are ordered by character code, so
  "Banana" sorts before "apple". The database orders `leaveTypeName` by its
  own collation, which this model does not know.
- Holiday kinds are plain strings, not the enum's members.
- Database constraints the services rely on but do not check:
  - foreign keys, such as user-role rows when a user is removed;
  - the unique index on department codes when an update sends an empty
    code.
- Notifications.Inbox.FindByUser: requires page >= 1 and limit >= 1. The
  service takes any numbers, and a zero or negative page or limit gives a
  negative skip or an infinite page count.
- AnnualHolidays.HolidayTable.Upcoming: the limit is a `nat`. The
  controller passes `Number(limit)` for any query string, and a negative
  `take` makes the database return the last |limit| holidays of the
  ordering (the latest-starting ones) instead. That case is not modelled.
- LeaveRequests.Noted: comments sent as null are read as left out and keep
  the stored notes, although the service writes the null and so clears
  them. The notes a manager or HR decision writes are still empty when the
  decision is taken, so the two readings give the same row.
- AnnualHolidays.Amended: a description sent as null is read as left out,
  although the service would clear the stored description.
- Users.Directory.Update: requires a given e-mail to be non-empty. The
  request validator demands an e-mail address, and the service itself does
  not check this.
- Request creation instants are stamped by the database. `Reports.AsRow`
  takes the instant as a parameter.
- Reports.DepartmentLeaveStats: its contract states the year and the total.
  The bucket counts and day sum are tied to the in-memory statistics by
  `Reports.DepartmentStatsMatchHistory`, not by its own ensures.
