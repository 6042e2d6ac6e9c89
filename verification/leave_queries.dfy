/** The leave request queries (`LeaveRequestRepository`): the overlap
    predicate the service consults before accepting an application, and the
    approved-leave listings. */
module LeaveQueries {
  import opened Calendar
  import opened Sorting
  import opened LeaveModel

  /** The JPQL overlap condition between an existing range [exStart, exEnd]
      and a candidate [start, end], with inclusive `BETWEEN`: the existing
      start lies in the candidate, or the existing end does, or the existing
      range covers the candidate. */
  predicate OverlapCondition(exStart: Date, exEnd: Date, start: Date, end: Date)
  {
    || (start <= exStart <= end)
    || (start <= exEnd <= end)
    || (exStart <= start && exEnd >= end)
  }

  /** Two well-formed inclusive ranges share a date. */
  predicate RangesShareDate(aStart: Date, aEnd: Date, bStart: Date, bEnd: Date)
  {
    aStart <= aEnd && bStart <= bEnd && aStart <= bEnd && bStart <= aEnd
  }

  /** `ex` is returned by `findOverlappingLeaves(employee, start, end)`. */
  predicate Blocks(ex: LeaveRequest, employee: string, start: Date, end: Date)
  {
    && ex.employee == employee
    && OverlapCondition(ex.startDate, ex.endDate, start, end)
    && IsActive(ex.status)
  }

  /** The ids of the requests `findOverlappingLeaves` returns. */
  function FindOverlappingLeaves(requests: map<int, LeaveRequest>, employee: string, start: Date, end: Date): (r: set<int>)
    ensures r <= requests.Keys
    ensures forall id :: id in r ==> requests[id].employee == employee && IsActive(requests[id].status)
    ensures forall id ::
              (id in requests && requests[id].employee == employee && IsActive(requests[id].status)
               && RangesShareDate(requests[id].startDate, requests[id].endDate, start, end))
              ==> id in r
    ensures forall id ::
              (id in r && start <= end && requests[id].startDate <= requests[id].endDate)
              ==> RangesShareDate(requests[id].startDate, requests[id].endDate, start, end)
  {
    set id | id in requests && Blocks(requests[id], employee, start, end)
  }

  /** Sharing a date means sharing a day: the closed form is the existential. */
  lemma RangesShareDateIffCommonDay(aStart: Date, aEnd: Date, bStart: Date, bEnd: Date)
    ensures RangesShareDate(aStart, aEnd, bStart, bEnd)
        <==> exists d :: InRange(d, aStart, aEnd) && InRange(d, bStart, bEnd)
  {
    if RangesShareDate(aStart, aEnd, bStart, bEnd) {
      var d := if aStart <= bStart then bStart else aStart;
      assert InRange(d, aStart, aEnd) && InRange(d, bStart, bEnd);
    }
  }

  /** A shared date always trips the overlap condition, whatever the shape
      of either range. */
  lemma SharedDateTripsOverlapCondition(exStart: Date, exEnd: Date, start: Date, end: Date)
    ensures RangesShareDate(exStart, exEnd, start, end) ==> OverlapCondition(exStart, exEnd, start, end)
  {
  }

  /** For well-formed ranges the three-way condition is exactly "the ranges
      share a date", i.e. neither ends before the other starts. */
  lemma OverlapConditionIffSharedDate(exStart: Date, exEnd: Date, start: Date, end: Date)
    requires exStart <= exEnd && start <= end
    ensures OverlapCondition(exStart, exEnd, start, end) <==> RangesShareDate(exStart, exEnd, start, end)
    ensures OverlapCondition(exStart, exEnd, start, end) <==> !(exEnd < start || exStart > end)
  {
  }

  /** Bounds are inclusive: ranges that only touch at one end overlap. */
  lemma TouchingRangesOverlap(exStart: Date, exEnd: Date, start: Date, end: Date)
    requires start <= end
    requires exEnd == start || exStart == end
    ensures OverlapCondition(exStart, exEnd, start, end)
  {
  }

  /** With a reversed candidate (start > end) the third disjunct can still
      match although the candidate holds no date at all. */
  lemma ReversedCandidateCanMatch()
    ensures OverlapCondition(1, 10, 5, 3)
    ensures !RangesShareDate(1, 10, 5, 3)
  {
  }

  function StartDateOf(r: LeaveRequest): int
  {
    r.startDate
  }

  predicate ApprovedStartingIn(r: LeaveRequest, start: Date, end: Date)
  {
    r.status == Approved && start <= r.startDate <= end
  }

  predicate ApprovedOfTypeAndYear(r: LeaveRequest, employee: string, t: LeaveType, year: int, yearOf: Date -> int)
  {
    r.employee == employee && r.leaveType == t && yearOf(r.startDate) == year && r.status == Approved
  }

  /** `findApprovedLeavesInDateRange`: the approved requests whose START date
      lies in [start, end], ascending by start date. A leave that begins
      before the window is left out even if it runs into it. */
  function ApprovedLeavesInDateRange(rows: seq<LeaveRequest>, start: Date, end: Date): (r: seq<LeaveRequest>)
    ensures forall x :: x in r <==> x in rows && ApprovedStartingIn(x, start, end)
    ensures forall x :: ApprovedStartingIn(x, start, end) ==> multiset(r)[x] == multiset(rows)[x]
    ensures multiset(r) <= multiset(rows)
    ensures SortedBy(r, StartDateOf)
  {
    var kept := FilterBy(rows, x => ApprovedStartingIn(x, start, end));
    assert forall x :: x in kept <==> x in rows && ApprovedStartingIn(x, start, end);
    var r := SortBy(kept, StartDateOf);
    SameMembers(r, kept);
    r
  }

  /** `findApprovedLeavesByTypeAndYear`: the employee's approved requests of
      type `t` whose start date falls in `year` (no ORDER BY: storage order). */
  function ApprovedLeavesByTypeAndYear(rows: seq<LeaveRequest>, employee: string, t: LeaveType,
                                       year: int, yearOf: Date -> int): (r: seq<LeaveRequest>)
    ensures forall x :: x in r <==> x in rows && ApprovedOfTypeAndYear(x, employee, t, year, yearOf)
    ensures forall x :: ApprovedOfTypeAndYear(x, employee, t, year, yearOf) ==> multiset(r)[x] == multiset(rows)[x]
  {
    FilterBy(rows, x => ApprovedOfTypeAndYear(x, employee, t, year, yearOf))
  }
}
