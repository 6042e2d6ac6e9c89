/** Properties of the leave workflow that relate several operations: the
    table invariants every successful operation keeps, and what sequences of
    operations do to the ledger. */
module LeaveInvariants {
  import opened Common
  import opened Calendar
  import opened Holidays
  import opened WorkingDays
  import opened LeaveModel
  import opened Balances
  import opened LeaveQueries
  import opened LeaveService

  /** Each request is stored under its own id. */
  predicate IdsMatch(requests: map<int, LeaveRequest>)
  {
    forall id :: id in requests ==> requests[id].id == id
  }

  /** Every stored total is a count of days, hence not negative. */
  predicate NonNegativeDays(requests: map<int, LeaveRequest>)
  {
    forall id :: id in requests ==> requests[id].totalDays >= 0
  }

  predicate ActiveSameEmployee(a: LeaveRequest, b: LeaveRequest)
  {
    a.employee == b.employee && IsActive(a.status) && IsActive(b.status)
  }

  predicate ShareDate(a: LeaveRequest, b: LeaveRequest)
  {
    RangesShareDate(a.startDate, a.endDate, b.startDate, b.endDate)
  }

  /** No two PENDING or APPROVED requests of one employee share a date. */
  predicate NoActiveOverlap(requests: map<int, LeaveRequest>)
  {
    forall i, j :: i in requests && j in requests && i != j && ActiveSameEmployee(requests[i], requests[j])
      ==> !ShareDate(requests[i], requests[j])
  }

  predicate Valid(st: State)
  {
    && IdsMatch(st.requests)
    && NonNegativeDays(st.requests)
    && NoActiveOverlap(st.requests)
    && WithinCeiling(st.ledger)
  }

  /** A request that passed the overlap query shares no date with any active
      request of the same employee. */
  lemma PassedOverlapQueryMeansNoSharedDate(requests: map<int, LeaveRequest>, j: int, candidate: LeaveRequest)
    requires FindOverlappingLeaves(requests, candidate.employee, candidate.startDate, candidate.endDate) == {}
    requires j in requests && ActiveSameEmployee(requests[j], candidate)
    ensures !ShareDate(requests[j], candidate) && !ShareDate(candidate, requests[j])
  {
    var ex := requests[j];
    assert j !in FindOverlappingLeaves(requests, candidate.employee, candidate.startDate, candidate.endDate);
    assert !OverlapCondition(ex.startDate, ex.endDate, candidate.startDate, candidate.endDate);
    SharedDateTripsOverlapCondition(ex.startDate, ex.endDate, candidate.startDate, candidate.endDate);
  }

  /** A successful application keeps the tables valid; in particular the new
      request shares no date with another active request of its employee. */
  lemma ApplyPreservesValid(st: State, clock: Clock, id: int, draft: LeaveRequest)
    requires Valid(st) && id !in st.requests
    ensures var r := ApplyLeave(st, clock, id, draft);
      r.Ok? ==> Valid(r.value.state)
  {
    var r := ApplyLeave(st, clock, id, draft);
    if r.Ok? {
      var reqs := r.value.state.requests;
      var added := r.value.request;
      forall i, j | i in reqs && j in reqs && i != j && ActiveSameEmployee(reqs[i], reqs[j])
        ensures !ShareDate(reqs[i], reqs[j])
      {
        if i == id {
          PassedOverlapQueryMeansNoSharedDate(st.requests, j, added);
        } else if j == id {
          PassedOverlapQueryMeansNoSharedDate(st.requests, i, added);
        }
      }
    }
  }

  lemma ApprovePreservesValid(st: State, clock: Clock, id: int, approver: Option<string>)
    requires Valid(st)
    ensures var r := ApproveLeave(st, clock, id, approver);
      r.Ok? ==> Valid(r.value.state)
  {
    var r := ApproveLeave(st, clock, id, approver);
    if r.Ok? {
      var reqs := r.value.state.requests;
      assert forall i :: i in reqs ==>
        && reqs[i].startDate == st.requests[i].startDate
        && reqs[i].endDate == st.requests[i].endDate
        && reqs[i].employee == st.requests[i].employee
        && (IsActive(reqs[i].status) ==> IsActive(st.requests[i].status));
      var key := BalanceKey(st.requests[id].employee, CurrentYear(clock));
      var t := st.requests[id].leaveType;
      forall k, u | k in r.value.state.ledger
        ensures Counter(r.value.state.ledger[k], u) <= RestoreCeiling
      {
        if k == key && u == t {
          assert st.requests[id].totalDays >= 0;
        }
      }
    }
  }

  lemma RejectPreservesValid(st: State, id: int, reason: Option<string>)
    requires Valid(st)
    ensures var r := RejectLeave(st, id, reason);
      r.Ok? ==> Valid(r.value.state)
  {
    var r := RejectLeave(st, id, reason);
    if r.Ok? {
      var reqs := r.value.state.requests;
      assert forall i :: i in reqs && IsActive(reqs[i].status) ==> reqs[i] == st.requests[i];
    }
  }

  lemma DeletePreservesValid(st: State, clock: Clock, id: int)
    requires Valid(st)
    ensures var r := DeleteLeaveRequest(st, clock, id);
      r.Ok? ==> Valid(r.value.state)
  {
    var r := DeleteLeaveRequest(st, clock, id);
    if r.Ok? {
      var req := st.requests[id];
      var restored :=
        if req.status == Approved then
          RestoreLeaveBalance(st.ledger, st.employees, req.employee, req.leaveType, req.totalDays, CurrentYear(clock))
        else st.ledger;
      LedgerOperationsStayWithinCeiling(st.ledger, st.employees, req.employee, req.leaveType, req.totalDays, CurrentYear(clock));
      LedgerOperationsStayWithinCeiling(restored, st.employees, req.employee, req.leaveType, 0, clock.yearOf(req.appliedDate));
    }
  }

  /** Approving the same request twice: the second call fails as not pending,
      so the balance is debited once. */
  lemma ApproveTwiceDeductsOnce(st: State, clock: Clock, id: int, first: Option<string>, second: Option<string>)
    requires ApproveLeave(st, clock, id, first).Ok?
    ensures var st1 := ApproveLeave(st, clock, id, first).value.state;
      ApproveLeave(st1, clock, id, second) == Err(NotPending)
  {
  }

  /** Rejecting never reaches the ledger, and a rejected request can be
      neither approved nor rejected again. */
  lemma RejectIsTerminal(st: State, clock: Clock, id: int, reason: Option<string>, approver: Option<string>, again: Option<string>)
    requires RejectLeave(st, id, reason).Ok?
    ensures var st1 := RejectLeave(st, id, reason).value.state;
      && st1.ledger == st.ledger
      && ApproveLeave(st1, clock, id, approver) == Err(NotPending)
      && RejectLeave(st1, id, again) == Err(NotPending)
  {
  }

  /** Approving a request and then deleting it in the same year gives every
      balance back exactly, as long as the applied-date year already has a
      record (otherwise the delete's final lookup creates one). */
  lemma ApproveThenDeleteRestoresLedger(st: State, clock: Clock, id: int, approver: Option<string>)
    requires Valid(st)
    requires ApproveLeave(st, clock, id, approver).Ok?
    requires BalanceKey(st.requests[id].employee, clock.yearOf(st.requests[id].appliedDate)) in st.ledger
    ensures var st1 := ApproveLeave(st, clock, id, approver).value.state;
      var d := DeleteLeaveRequest(st1, clock, id);
      && d.Ok?
      && d.value.state.ledger == st.ledger
      && d.value.state.requests == st.requests - {id}
  {
    var req := st.requests[id];
    var key := BalanceKey(req.employee, CurrentYear(clock));
    var st1 := ApproveLeave(st, clock, id, approver).value.state;
    assert st1.ledger == DeductLeaveBalance(st.ledger, req.employee, req.leaveType, req.totalDays, CurrentYear(clock)).ledger;
    assert req.totalDays >= 0;
    RestoreUndoesDeduct(st.ledger, st.employees, req.employee, req.leaveType, req.totalDays, CurrentYear(clock));
    assert st1.requests - {id} == st.requests - {id};
  }

  /** The application path has no zero-working-day guard: a Saturday-to-Sunday
      range is accepted and saved with zero total days whenever the counter is
      not negative. */
  lemma ApplyAcceptsWeekendOnlyRange(st: State, clock: Clock, id: int, draft: LeaveRequest)
    requires id !in st.requests
    requires draft.employee in st.employees
    requires FindOverlappingLeaves(st.requests, draft.employee, draft.startDate, draft.endDate) == {}
    requires DayOfWeek(draft.startDate) == Saturday && draft.endDate == draft.startDate + 1
    requires BalanceCovers(st.ledger, BalanceKey(draft.employee, CurrentYear(clock)), draft.leaveType, 0)
    ensures var r := ApplyLeave(st, clock, id, draft);
      r.Ok? && r.value.request.totalDays == 0
  {
    var fetched := DatesOf(HolidaysInRange(st.holidays, draft.startDate, draft.endDate));
    WeekendHasNoWorkingDay(draft.startDate, fetched);
    assert WorkingDaysOf(st.holidays, draft.startDate, draft.endDate) == 0;
  }

  /** A request built the default way is saved PENDING, stamped today, with
      no approval or rejection recorded. */
  lemma AppliedDefaultRequestIsPending(st: State, clock: Clock, id: int, employee: string, t: LeaveType,
                                       start: Date, end: Date, reason: Option<string>, made: Date)
    requires id !in st.requests
    ensures var r := ApplyLeave(st, clock, id, NewLeaveRequest(employee, t, start, end, reason, made));
      r.Ok? ==>
        && r.value.request.status == Pending
        && r.value.request.appliedDate == clock.today
        && r.value.request.approvedBy == None
        && r.value.request.approvedDate == None
        && r.value.request.rejectionReason == None
  {
  }

  /** Applying creates the current-year record, so a request approved on the
      day it was applied never fails for want of a record. */
  lemma ApplyThenApproveSameDay(st: State, clock: Clock, id: int, draft: LeaveRequest, approver: Option<string>)
    requires id !in st.requests
    requires draft.status == Pending
    requires ApplyLeave(st, clock, id, draft).Ok?
    ensures ApproveLeave(ApplyLeave(st, clock, id, draft).value.state, clock, id, approver).Ok?
  {
  }
}
