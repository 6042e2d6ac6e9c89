/** `LeaveService`: apply, approve, reject and delete over an immutable
    snapshot of the tables. Each operation returns the new snapshot, or the
    error it throws; on an error the caller keeps the old snapshot. */
module LeaveService {
  import opened Common
  import opened Calendar
  import opened Holidays
  import opened WorkingDays
  import opened LeaveModel
  import opened Balances
  import opened LeaveQueries

  /** "Now": today's date, and the calendar year of any date. */
  datatype Clock = Clock(today: Date, yearOf: Date -> int)

  function CurrentYear(clock: Clock): int
  {
    clock.yearOf(clock.today)
  }

  /** The tables the service reads and writes. `employees` holds the serial
      numbers the user directory can find. */
  datatype State = State(
    employees: set<string>,
    requests: map<int, LeaveRequest>,
    ledger: Ledger,
    holidays: seq<CompanyHoliday>)

  datatype LeaveError =
    | UserNotFound
    | OverlappingLeave
    | InsufficientBalance
    | RequestNotFound
    | NotPending
    | DeductionFailed

  /** A saved request and the tables after the save. */
  datatype Saved = Saved(state: State, request: LeaveRequest)

  /** The tables after a delete and the balance the delete returns. */
  datatype Deleted = Deleted(state: State, balance: Option<Balance>)

  /** The balance test of `applyLeave`, for an employee the directory knows:
      the current-year counter covers the days, or there is no record yet and
      the default allotment does. */
  predicate BalanceCovers(ledger: Ledger, key: BalanceKey, t: LeaveType, days: int)
  {
    if key in ledger then Counter(ledger[key], t) >= days else DefaultAllotment >= days
  }

  /** `after` keeps every record of `before` unchanged and adds at most a
      default record under `key`. */
  ghost predicate OnlyLazyCreation(before: Ledger, after: Ledger, key: BalanceKey)
  {
    && (forall k :: k in before ==> k in after && after[k] == before[k])
    && (forall k :: k in after && k !in before ==> k == key && after[k] == NewBalance())
  }

  /** `after` differs from `before` only in the counter of `t` under `key`. */
  ghost predicate OnlyCounterChanged(before: Ledger, after: Ledger, key: BalanceKey, t: LeaveType)
  {
    && key in after
    && (forall k :: k != key ==> (k in after <==> k in before))
    && (forall k :: k in before && k != key ==> after[k] == before[k])
    && (forall u :: u != t ==> key in before ==> Counter(after[key], u) == Counter(before[key], u))
  }

  /** `applyLeave`: checks, in this order, that the employee exists, that no
      active request of theirs overlaps, and that the current-year balance
      covers the working days; then saves the caller's request under a fresh
      `id` with its total days computed and its applied date stamped today.
      Everything else in the caller's request, status included, is kept. */
  function ApplyLeave(st: State, clock: Clock, id: int, draft: LeaveRequest): (r: Result<Saved, LeaveError>)
    requires id !in st.requests
    ensures draft.employee !in st.employees ==> r == Err(UserNotFound)
    ensures draft.employee in st.employees
         && FindOverlappingLeaves(st.requests, draft.employee, draft.startDate, draft.endDate) != {}
        ==> r == Err(OverlappingLeave)
    ensures var days := WorkingDaysOf(st.holidays, draft.startDate, draft.endDate);
      var key := BalanceKey(draft.employee, CurrentYear(clock));
      && (r.Ok? <==>
            && draft.employee in st.employees
            && FindOverlappingLeaves(st.requests, draft.employee, draft.startDate, draft.endDate) == {}
            && BalanceCovers(st.ledger, key, draft.leaveType, days))
      && (r.Err? && r.error != UserNotFound && r.error != OverlappingLeave ==> r.error == InsufficientBalance)
      && (draft.employee in st.employees
            && FindOverlappingLeaves(st.requests, draft.employee, draft.startDate, draft.endDate) == {}
            && !BalanceCovers(st.ledger, key, draft.leaveType, days)
          ==> r == Err(InsufficientBalance))
      && (r.Ok? ==>
            && r.value.request == draft.(id := id, totalDays := days, appliedDate := clock.today)
            && r.value.state.requests == st.requests[id := r.value.request]
            && r.value.state.employees == st.employees
            && r.value.state.holidays == st.holidays
            && key in r.value.state.ledger
            && OnlyLazyCreation(st.ledger, r.value.state.ledger, key))
  {
    if draft.employee !in st.employees then Err(UserNotFound)
    else if FindOverlappingLeaves(st.requests, draft.employee, draft.startDate, draft.endDate) != {} then
      Err(OverlappingLeave)
    else
      var days := WorkingDaysOf(st.holidays, draft.startDate, draft.endDate);
      var check := HasSufficientBalance(st.ledger, st.employees, draft.employee, draft.leaveType, days, CurrentYear(clock));
      if !check.sufficient then Err(InsufficientBalance)
      else
        var saved := draft.(id := id, totalDays := days, appliedDate := clock.today);
        Ok(Saved(st.(requests := st.requests[id := saved], ledger := check.ledger), saved))
  }

  /** `approveLeave`: a PENDING request has its total days deducted from the
      current-year counter of its type (no floor, no lazy creation); only
      then is it marked APPROVED with the approver and today's date. */
  function ApproveLeave(st: State, clock: Clock, id: int, approver: Option<string>): (r: Result<Saved, LeaveError>)
    ensures id !in st.requests ==> r == Err(RequestNotFound)
    ensures id in st.requests && st.requests[id].status != Pending ==> r == Err(NotPending)
    ensures id in st.requests && st.requests[id].status == Pending
         && BalanceKey(st.requests[id].employee, CurrentYear(clock)) !in st.ledger
        ==> r == Err(DeductionFailed)
    ensures id in st.requests && st.requests[id].status == Pending
         && BalanceKey(st.requests[id].employee, CurrentYear(clock)) in st.ledger
        ==> r.Ok?
    ensures r.Err? ==> r.error == RequestNotFound || r.error == NotPending || r.error == DeductionFailed
    ensures r.Ok? ==>
      var old_ := st.requests[id];
      var key := BalanceKey(old_.employee, CurrentYear(clock));
      && old_.status == Pending && key in st.ledger
      && r.value.request == old_.(status := Approved, approvedBy := approver, approvedDate := Some(clock.today))
      && r.value.state.requests == st.requests[id := r.value.request]
      && OnlyCounterChanged(st.ledger, r.value.state.ledger, key, old_.leaveType)
      && Counter(r.value.state.ledger[key], old_.leaveType) == Counter(st.ledger[key], old_.leaveType) - old_.totalDays
      && r.value.state.employees == st.employees
      && r.value.state.holidays == st.holidays
  {
    if id !in st.requests then Err(RequestNotFound)
    else
      var req := st.requests[id];
      if req.status != Pending then Err(NotPending)
      else
        var deducted := DeductLeaveBalance(st.ledger, req.employee, req.leaveType, req.totalDays, CurrentYear(clock));
        if deducted.balance.None? then Err(DeductionFailed)
        else
          var saved := req.(status := Approved, approvedBy := approver, approvedDate := Some(clock.today));
          Ok(Saved(st.(requests := st.requests[id := saved], ledger := deducted.ledger), saved))
  }

  /** `rejectLeave`: a PENDING request becomes REJECTED with the given reason;
      the ledger is never touched. */
  function RejectLeave(st: State, id: int, rejectionReason: Option<string>): (r: Result<Saved, LeaveError>)
    ensures id !in st.requests ==> r == Err(RequestNotFound)
    ensures id in st.requests && st.requests[id].status != Pending ==> r == Err(NotPending)
    ensures id in st.requests && st.requests[id].status == Pending ==> r.Ok?
    ensures r.Err? ==> r.error == RequestNotFound || r.error == NotPending
    ensures r.Ok? ==>
      && id in st.requests && st.requests[id].status == Pending
      && r.value.request == st.requests[id].(status := Rejected, rejectionReason := rejectionReason)
      && r.value.state == st.(requests := st.requests[id := r.value.request])
  {
    if id !in st.requests then Err(RequestNotFound)
    else
      var req := st.requests[id];
      if req.status != Pending then Err(NotPending)
      else
        var saved := req.(status := Rejected, rejectionReason := rejectionReason);
        Ok(Saved(st.(requests := st.requests[id := saved]), saved))
  }

  /** `deleteLeaveRequest`: an APPROVED request first gives its days back to
      the CURRENT-year counter of its type, capped at the ceiling; the request
      is removed whatever its status; the result is the balance of the year
      of the request's applied date, created if need be. */
  function DeleteLeaveRequest(st: State, clock: Clock, id: int): (r: Result<Deleted, LeaveError>)
    ensures r.Err? <==> id !in st.requests
    ensures r.Err? ==> r.error == RequestNotFound
    ensures r.Ok? ==>
      var req := st.requests[id];
      var restoreKey := BalanceKey(req.employee, CurrentYear(clock));
      var reportKey := BalanceKey(req.employee, clock.yearOf(req.appliedDate));
      && r.value.state.requests == st.requests - {id}
      && r.value.state.employees == st.employees
      && r.value.state.holidays == st.holidays
      && (forall k :: k in st.ledger && (req.status != Approved || k != restoreKey) ==>
            k in r.value.state.ledger && r.value.state.ledger[k] == st.ledger[k])
      && (forall k :: k in r.value.state.ledger && k !in st.ledger ==>
            k == reportKey || (req.status == Approved && k == restoreKey))
      && (forall k :: k in r.value.state.ledger && k !in st.ledger ==> req.employee in st.employees)
      && (forall k :: k in r.value.state.ledger && k !in st.ledger && !(req.status == Approved && k == restoreKey) ==>
            r.value.state.ledger[k] == NewBalance())
      && (req.status == Approved && (restoreKey in st.ledger || req.employee in st.employees) ==>
            var before := if restoreKey in st.ledger then st.ledger[restoreKey] else NewBalance();
            && restoreKey in r.value.state.ledger
            && Counter(r.value.state.ledger[restoreKey], req.leaveType)
               == Min(RestoreCeiling, Counter(before, req.leaveType) + req.totalDays)
            && (forall u :: u != req.leaveType ==>
                  Counter(r.value.state.ledger[restoreKey], u) == Counter(before, u)))
      && (reportKey in r.value.state.ledger ==> r.value.balance == Some(r.value.state.ledger[reportKey]))
      && (reportKey !in r.value.state.ledger ==> r.value.balance == None && req.employee !in st.employees)
  {
    if id !in st.requests then Err(RequestNotFound)
    else
      var req := st.requests[id];
      var restored :=
        if req.status == Approved then
          RestoreLeaveBalance(st.ledger, st.employees, req.employee, req.leaveType, req.totalDays, CurrentYear(clock))
        else st.ledger;
      var report := GetLeaveBalance(restored, st.employees, req.employee, clock.yearOf(req.appliedDate));
      Ok(Deleted(st.(requests := st.requests - {id}, ledger := report.ledger), report.balance))
  }
}
