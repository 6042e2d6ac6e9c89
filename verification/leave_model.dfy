/** The leave request record and its two enumerations. */
module LeaveModel {
  import opened Common
  import opened Calendar

  /** The four leave kinds the service dispatches on; each has its own
      counter in a balance record. */
  datatype LeaveType = Casual | Sick | LeaveWithPay | LeaveWithoutPay

  datatype LeaveStatus = Pending | Approved | Rejected

  /** Only PENDING and APPROVED requests block a new application. */
  predicate IsActive(s: LeaveStatus)
  {
    s == Pending || s == Approved
  }

  /** A row of the leave request table. `employee` is the serial number of the
      requesting user; unset columns are `None`. Nothing relates `startDate`
      to `endDate`. */
  datatype LeaveRequest = LeaveRequest(
    id: int,
    employee: string,
    leaveType: LeaveType,
    startDate: Date,
    endDate: Date,
    totalDays: int,
    reason: Option<string>,
    status: LeaveStatus,
    appliedDate: Date,
    approvedDate: Option<Date>,
    approvedBy: Option<string>,
    rejectionReason: Option<string>)

  /** A request as a caller builds it: a fresh object (status PENDING, applied
      date set to the day it was made, approval and rejection columns unset)
      with the caller's employee, type, dates and reason filled in. Id and
      total days are placeholders that applying overwrites. */
  function NewLeaveRequest(employee: string, leaveType: LeaveType, startDate: Date, endDate: Date,
                           reason: Option<string>, today: Date): (r: LeaveRequest)
    ensures r.status == Pending
    ensures r.approvedBy == None && r.approvedDate == None && r.rejectionReason == None
    ensures r.employee == employee && r.leaveType == leaveType
    ensures r.startDate == startDate && r.endDate == endDate && r.reason == reason
    ensures r.appliedDate == today
  {
    LeaveRequest(0, employee, leaveType, startDate, endDate, 0, reason, Pending, today, None, None, None)
  }
}
