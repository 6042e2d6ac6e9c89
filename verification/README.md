# Leave workflow of the ERP admin service, in Dafny

This project models the leave workflow of the ERP admin back end. An employee applies for leave over an inclusive date range. The service counts the working days in the range, refuses ranges that overlap the employee's active requests, and checks a per-year balance. A manager later approves the request, which debits the balance, or rejects it. Deleting an approved request credits the days back, capped at the yearly allotment. A smaller part models the pure rules of the user-profile controller: "Others" resolution on update, status activation, and the checks made when a profile is created.

Everything is functional. The tables are immutable values: leave requests as a map from id to record, balances as a map keyed by (employee, year), holidays and listing rows as sequences, and profiles as a map keyed by row number. Each service operation is a function from the tables to a `Result` holding either the new tables or the error the Java method throws. On an error the caller keeps the old tables.

Files, one module each:

- `common.dfy` (`Common`): `Option` for nullable values and `Result` for return-or-throw.
- `sorting.dfy` (`Sorting`): filtering rows and sorting them by an integer key, used for `ORDER BY`.
- `calendar.dfy` (`Calendar`): dates as epoch days. The day of the week is `(d + 3) % 7`, with Monday = 0, as `LocalDate` computes it.
- `holidays.dfy` (`Holidays`): the holiday rows and the two holiday queries.
- `working_days.dfy` (`WorkingDays`): the working-day count, its set-based reference definition, and the loop of `calculateWorkingDays`.
- `leave_model.dfy` (`LeaveModel`): the leave types, the statuses and the request record.
- `balances.dfy` (`Balances`): the four-counter balance record and the ledger operations.
- `leave_queries.dfy` (`LeaveQueries`): the overlap predicate and the approved-leave listings.
- `leave_service.dfy` (`LeaveService`): apply, approve, reject and delete.
- `leave_invariants.dfy` (`LeaveInvariants`): the table invariants each operation keeps, plus properties of operation sequences.
- `user_profiles.dfy` (`UserProfiles`): the profile rules.

Inputs that are not computed:

- A `Clock` carries today's date and a function giving the calendar year of a date. "Current year" is the year of today.
- The user directory the leave service consults is a set of employee serial numbers.
- Fresh ids (request id, profile row number) are parameters that must not already be in use. They stand for the database's identity column.

What the code does, recorded as it is:

- Deduction has no floor, so a counter can go negative (`DeductCanGoNegative`).
- Approval does not create a missing balance record. With no current-year record it fails with "Failed to deduct leave balance".
- Applying has no zero-working-day guard. A weekend-only range is saved with 0 total days (`ApplyAcceptsWeekendOnlyRange`). The Java tests expect a rejection here.
- Delete restores the CURRENT year's counter, but it returns (and may create) the record for the year of the request's applied date.
- Applying keeps whatever status and approval fields the caller's record carries, because the whole request body becomes the saved row. Only the id, the total days and the applied date are overwritten. A request built the default way is PENDING (`AppliedDefaultRequestIsPending`).

In short, the code has no floor check on deduction, no check-and-deduct done as one atomic step, and no rejection of a range with zero working days, so a counter can go negative.

The working-day count has one definition, `WorkingDays.WorkingDaysOf`. The functional `ApplyLeave` uses it, and the loop method `CalculateWorkingDays` is proved to compute it. The leave listings take the request table as a sequence of rows rather than the service's id-keyed map, because their results are ordered row lists in which multiplicity and order are stated.

## Model

| member | source | states |
|---|---|---|
| Holidays.HolidaysInRange | src/main/java/com/erp/admin/repository/CompanyHolidayRepository.java:23-26 | The result is exactly the active holidays dated in [start, end] inclusive, each as often as in the table, sorted ascending by date |
| Holidays.HolidaysOfYear | src/main/java/com/erp/admin/repository/CompanyHolidayRepository.java:19 | The result is exactly the active holidays whose year column matches, each as often as in the table, sorted by date |
| Holidays.RangeQueryAgreesWithActiveDates | src/main/java/com/erp/admin/repository/CompanyHolidayRepository.java:23-24 | Inside [start, end], a date is returned by the range query iff it is the date of an active holiday. Inactive holidays never appear |
| WorkingDays.CountWorkingDays | src/main/java/com/erp/admin/service/LeaveService.java:165-190 | The count of working dates in [start, end] is never more than end-start+1 |
| WorkingDays.CountIsNumberOfWorkingDates | src/main/java/com/erp/admin/service/LeaveService.java:165-190 | The count equals the size of the set of dates in [start, end] that are neither Saturday, Sunday nor a holiday, and so is 0 when start > end |
| WorkingDays.CalculateWorkingDays | src/main/java/com/erp/admin/service/LeaveService.java:165-190 | Fetching the in-range active holidays once and walking the range returns the number of non-weekend dates in the range that are not active holidays |
| WorkingDays.WalkRange | src/main/java/com/erp/admin/service/LeaveService.java:170-189 | The loop over start..end, which skips weekends and dates that match a fetched holiday row, returns the count of working dates against those rows' dates |
| WorkingDays.HolidayMatchIsDateMembership | src/main/java/com/erp/admin/service/LeaveService.java:178-180 | A date matches some fetched holiday row exactly when it is one of the fetched rows' dates |
| WorkingDays.CountDependsOnlyOnRange | src/main/java/com/erp/admin/service/LeaveService.java:170-182 | Two holiday sets that agree on [start, end] give the same count, so holidays outside the range are irrelevant |
| WorkingDays.RangeQuerySufficesForCount | src/main/java/com/erp/admin/repository/CompanyHolidayRepository.java:23-26 | Counting against the range query's rows gives the same result as counting against all active holidays |
| WorkingDays.CountSplits | src/main/java/com/erp/admin/service/LeaveService.java:172-187 | Splitting the range at any date splits the count into the two parts' counts |
| WorkingDays.FullWeekHasFiveWorkingDays | src/main/java/com/erp/admin/service/LeaveService.java:174-175 | Any seven consecutive dates without holidays hold exactly five working days |
| WorkingDays.WeekendHasNoWorkingDay | src/main/java/com/erp/admin/service/LeaveService.java:174-175 | A Saturday-to-Sunday range counts 0 whatever the holidays |
| LeaveModel.NewLeaveRequest | src/main/java/com/erp/admin/model/LeaveRequest.java:46-59 | A newly built request is PENDING, dated today, with approver, approval date and rejection reason unset, and carries the caller's employee, type, dates and reason |
| Balances.NewBalance | src/main/java/com/erp/admin/model/LeaveBalance.java:23-33 | A freshly created record has all four counters at the default allotment of 12 |
| Balances.WithCounter | src/main/java/com/erp/admin/service/LeaveService.java:217-222 | The leave-type dispatch sets exactly the counter of the given type and leaves the other three unchanged |
| Balances.GetLeaveBalance | src/main/java/com/erp/admin/service/LeaveService.java:140-155 | An existing (employee, year) record is returned unchanged with no write. Otherwise an all-12 record is created and saved if the employee exists, else the result is null with no write |
| Balances.GetLeaveBalanceIsIdempotent | src/main/java/com/erp/admin/service/LeaveService.java:140-155 | A second lookup of the same (employee, year) returns the same record and writes nothing |
| Balances.HasSufficientBalance | src/main/java/com/erp/admin/service/LeaveService.java:192-203 | Sufficient iff the current-year counter for the type is at least the requested days. A missing record counts as 12 when the employee exists, and as insufficient when they do not. The ledger afterwards is the lookup's |
| Balances.DeductLeaveBalance | src/main/java/com/erp/admin/service/LeaveService.java:207-234 | Null with no write iff there is no current-year record. Otherwise the type's counter drops by exactly the days with no lower bound, and the other counters and records are unchanged |
| Balances.RestoreLeaveBalance | src/main/java/com/erp/admin/service/LeaveService.java:274-285 | The current-year record, created if need be, has the type's counter set to min(12, old+days) and the others unchanged. With no record and no employee nothing changes |
| Balances.RestoreOnNewRecordKeepsDefault | src/main/java/com/erp/admin/model/LeaveBalance.java:23-33 | The default equals the ceiling, so restoring into an untouched record leaves every counter at 12 |
| Balances.RestoreUndoesDeduct | src/main/java/com/erp/admin/service/LeaveService.java:274-285 | Restoring the days just deducted gives back the original ledger whenever the counter was at most 12 |
| Balances.DeductCanGoNegative | src/main/java/com/erp/admin/service/LeaveService.java:218-221 | A sick counter of 1 debited 2 days becomes -1 |
| Balances.LedgerOperationsStayWithinCeiling | src/main/java/com/erp/admin/service/LeaveService.java:278-281 | Lookup, deduction of a non-negative count and restore never raise a counter above 12 |
| LeaveQueries.FindOverlappingLeaves | src/main/java/com/erp/admin/repository/LeaveRequestRepository.java:26-33 | Only the same employee's PENDING or APPROVED requests are returned. Every one of them that shares a date with the candidate is returned, and for well-formed ranges every returned one shares a date with it |
| LeaveQueries.OverlapConditionIffSharedDate | src/main/java/com/erp/admin/repository/LeaveRequestRepository.java:27-29 | For well-formed ranges, the three-way condition holds iff the ranges share a date, i.e. not (ex.end < start or ex.start > end) |
| LeaveQueries.RangesShareDateIffCommonDay | src/main/java/com/erp/admin/repository/LeaveRequestRepository.java:27-29 | The closed form of "share a date" is equivalent to the existence of a common calendar day |
| LeaveQueries.SharedDateTripsOverlapCondition | src/main/java/com/erp/admin/repository/LeaveRequestRepository.java:27-29 | Whenever two ranges share a date, the three-way condition holds, whatever the shape of the ranges |
| LeaveQueries.TouchingRangesOverlap | src/main/java/com/erp/admin/repository/LeaveRequestRepository.java:27-28 | Ranges that only touch at one end count as overlapping (inclusive BETWEEN) |
| LeaveQueries.ReversedCandidateCanMatch | src/main/java/com/erp/admin/repository/LeaveRequestRepository.java:27-29 | A reversed candidate (5..3) still matches an existing 1..10 through the third disjunct, although it holds no date |
| LeaveQueries.ApprovedLeavesInDateRange | src/main/java/com/erp/admin/repository/LeaveRequestRepository.java:41-44 | Exactly the APPROVED requests whose start date lies in [start, end], sorted by start date. One starting before the window is excluded even if it runs into it |
| LeaveQueries.ApprovedLeavesByTypeAndYear | src/main/java/com/erp/admin/repository/LeaveRequestRepository.java:35-39 | Exactly the employee's APPROVED requests of the given type whose start date falls in the given year |
| WorkingDays.WorkingDaysOf | src/main/java/com/erp/admin/service/LeaveService.java:50 | The total the application computes is the number of working dates in the range against the active holidays, at most the range's length |
| LeaveService.ApplyLeave | src/main/java/com/erp/admin/service/LeaveService.java:36-60 | Fails in a fixed order: unknown employee, then overlap, then insufficient balance; a known employee with no overlap whose balance does not cover the days gets the insufficient-balance error. Succeeds iff none applies. On success exactly one request is saved, with the computed total and today's applied date, and no existing balance record changes. The current-year record exists afterwards: if it was missing, it is created with all counters at 12, and no other record is created |
| LeaveService.ApproveLeave | src/main/java/com/erp/admin/service/LeaveService.java:64-89 | Not found for a missing id. Not pending for a non-PENDING request. Deduction failure when there is no current-year record. A PENDING request with a current-year record is always approved, and no other error occurs. On success the type's counter drops by exactly totalDays and nothing else in the ledger changes; the request becomes APPROVED with the approver (null when none was given) and today's date |
| LeaveService.RejectLeave | src/main/java/com/erp/admin/service/LeaveService.java:114-126 | Not found or not pending as for approval. A present PENDING request is always rejected: it becomes REJECTED with the reason (null when none was given), and every other table, the ledger included, is unchanged |
| LeaveService.DeleteLeaveRequest | src/main/java/com/erp/admin/service/LeaveService.java:250-268 | Fails, with not found, iff the id is missing; otherwise the request is removed. An APPROVED one first sets the current-year counter to min(12, old+totalDays), where old is 12 when the record is created for it, leaving its other counters and all other records alone. Any other record the delete creates is an all-12 record, and no record is created for an employee the directory does not know. A PENDING or REJECTED one changes no record. The result is the applied-year record, created if need be |
| LeaveInvariants.PassedOverlapQueryMeansNoSharedDate | src/main/java/com/erp/admin/service/LeaveService.java:42-47 | A candidate for which the overlap query returns nothing shares no date with any active request of the same employee |
| LeaveInvariants.ApplyPreservesValid | src/main/java/com/erp/admin/service/LeaveService.java:36-60 | A successful application keeps the tables valid: ids match their keys, totals are non-negative, counters are at most 12, and no two active requests of one employee share a date |
| LeaveInvariants.ApprovePreservesValid | src/main/java/com/erp/admin/service/LeaveService.java:64-89 | A successful approval keeps the tables valid |
| LeaveInvariants.RejectPreservesValid | src/main/java/com/erp/admin/service/LeaveService.java:114-126 | A successful rejection keeps the tables valid |
| LeaveInvariants.DeletePreservesValid | src/main/java/com/erp/admin/service/LeaveService.java:250-268 | A successful delete keeps the tables valid |
| LeaveInvariants.ApproveTwiceDeductsOnce | src/main/java/com/erp/admin/service/LeaveService.java:68-70 | After a successful approval, approving again fails as not pending, so the balance is debited only once |
| LeaveInvariants.RejectIsTerminal | src/main/java/com/erp/admin/service/LeaveService.java:118-120 | A rejection leaves the ledger as it was, and the rejected request can be neither approved nor rejected again |
| LeaveInvariants.ApproveThenDeleteRestoresLedger | src/main/java/com/erp/admin/service/LeaveService.java:258-262 | In valid tables, approving then deleting a request gives back the ledger exactly, provided its applied-year record exists, and removes only that request |
| LeaveInvariants.ApplyThenApproveSameDay | src/main/java/com/erp/admin/service/LeaveService.java:64-80 | A PENDING request that was just applied for is approved successfully on the same day, because applying created the current-year record the deduction needs |
| LeaveInvariants.ApplyAcceptsWeekendOnlyRange | src/main/java/com/erp/admin/service/LeaveService.java:50-56 | A Saturday-to-Sunday application by a known employee with no overlap and a non-negative counter is accepted and saved with 0 total days |
| LeaveInvariants.AppliedDefaultRequestIsPending | src/main/java/com/erp/admin/model/LeaveRequest.java:46-67 | A default-built request is saved PENDING, stamped with today's date whatever it carried, and with no approval or rejection recorded |
| UserProfiles.EqualsIgnoreCaseIffSameLower | src/main/java/com/erp/admin/controller/UserProfileController.java:137 | ASCII case-insensitive equality holds iff the two strings fold to the same lower-case string |
| UserProfiles.ResolveOthersByFolding | src/main/java/com/erp/admin/controller/UserProfileController.java:137-153 | A value folding to "others" is replaced by the companion other-field. Any other value, or null, is stored as sent |
| UserProfiles.UpdateUserProfile | src/main/java/com/erp/admin/controller/UserProfileController.java:120-178 | Fails, with not found, iff the id is missing. Otherwise only that profile changes: the copied columns and the status come from the body, and the three "Others" fields are resolved. Serial number and row number are kept, and the transient other-fields are not stored |
| UserProfiles.Activate | src/main/java/com/erp/admin/controller/UserProfileController.java:240-241 | 'N' and 'n' become 'Y'; any other status is left unchanged |
| UserProfiles.ActivateUserStatus | src/main/java/com/erp/admin/controller/UserProfileController.java:230-248 | Fails, with not found, iff no profile has the serial number. Otherwise the matching profile's status is activated and every other profile is unchanged |
| UserProfiles.ActivationIsIdempotent | src/main/java/com/erp/admin/controller/UserProfileController.java:238-248 | Activating twice gives the same status, and the same table, as activating once |
| UserProfiles.CreateUserProfile | src/main/java/com/erp/admin/controller/UserProfileController.java:56-69 | Refused iff the serial number is non-null and already taken. Otherwise the profile is saved as sent under the generated row number: serial number, details, bank, department and designation unchanged (no "Others" resolution), the transient other-fields not stored, a '\0' status becomes 'N' and any other status is kept |
| UserProfiles.CreateKeepsSerialsUnique | src/main/java/com/erp/admin/controller/UserProfileController.java:56-59 | Creation keeps serial numbers unique, and a second profile with the same serial number is then refused |
| UserProfiles.UpdateAndActivateKeepSerialsUnique | src/main/java/com/erp/admin/controller/UserProfileController.java:127-178 | Update and activation never change serial numbers, so uniqueness is kept |

## Left out

- Persistence and transactions: JPA, flushing and `@Transactional` are not modelled. Each failure leaves every table unchanged. In the running system a checked `Exception` does not roll back by default, so a balance record lazily created by the sufficiency check before "Insufficient leave balance" would persist. The model drops that record.
- Concurrency: the read-modify-write of a balance has no locking. Races and double spending between concurrent approvals are not modelled, and no atomic check-and-deduct is claimed.
- Calendar arithmetic: the year of a date comes from the `Clock`, not from a calendar computation.
- A client-supplied request id on apply: the store's merge-on-save behaviour is not modelled, and the request is saved under the fresh id.
- The request's emergency-contact column, and the balance record's id, created and updated dates: none is read by the workflow.
- HTTP response mapping in the leave, holiday and profile controllers, the holiday-adding endpoint, the CORS configuration, and logging.
- File uploads and the profile's photo and document byte arrays: these are file storage and binary data. The update and create rules here cover only the text and number columns.
- The read-only listings (history, pending, team) and the unused counter-setting updates of the balance repository.
- Case folding is ASCII only. Unicode case folding of `equalsIgnoreCase` is not modelled.
- Profile money and dates: the gross salary (a decimal) and the joining date are opaque integers that update copies as-is.
- The user repository declares none of the finders the service and controller call. The model treats them as their names say: find by serial number, exists by serial number.
- UserProfiles.CreateUserProfile: a null serial number skips the duplicate check and is accepted here. The column's not-null constraint, which would refuse it on insert, is persistence and is not modelled.
- Balances.DeductLeaveBalance: counters are unbounded integers. The Java counters are 32-bit, so `balance - days` would wrap around below -2^31; the model does not wrap.
- Balances.RestoreLeaveBalance: `Math.min(12, balance + days)` is computed on unbounded integers; in Java `balance + days` wraps above 2^31-1 and the minimum is then taken of the wrapped value.
- Null inputs that make the Java code throw: a request without a user profile fails at the employee lookup, and a null leave type fails at the type dispatch. The model's request always has an employee and a type. A null approver or rejection reason is modelled: both are `Option` values stored as given.
