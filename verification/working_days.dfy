/** `calculateWorkingDays`: the number of dates in an inclusive range that are
    neither a Saturday, a Sunday nor a holiday. */
module WorkingDays {
  import opened Calendar
  import opened Holidays

  predicate IsWorkingDay(d: Date, holidays: set<Date>)
  {
    !IsWeekend(d) && d !in holidays
  }

  /** Reference definition: the working dates of [start, end]. */
  function WorkingDatesIn(start: Date, end: Date, holidays: set<Date>): set<Date>
  {
    set d | start <= d <= end && IsWorkingDay(d, holidays)
  }

  /** The count, by recursion on the last date of the range. */
  function CountWorkingDays(start: Date, end: Date, holidays: set<Date>): (n: nat)
    ensures n <= Span(start, end)
    decreases Span(start, end)
  {
    if start > end then 0
    else CountWorkingDays(start, end - 1, holidays) + (if IsWorkingDay(end, holidays) then 1 else 0)
  }

  /** The recursive count is the size of the reference set. */
  lemma {:induction false} CountIsNumberOfWorkingDates(start: Date, end: Date, holidays: set<Date>)
    ensures CountWorkingDays(start, end, holidays) == |WorkingDatesIn(start, end, holidays)|
    decreases Span(start, end)
  {
    if start > end {
      assert WorkingDatesIn(start, end, holidays) == {};
    } else {
      CountIsNumberOfWorkingDates(start, end - 1, holidays);
      var last := if IsWorkingDay(end, holidays) then {end} else {};
      assert WorkingDatesIn(start, end, holidays) == WorkingDatesIn(start, end - 1, holidays) + last;
      assert end !in WorkingDatesIn(start, end - 1, holidays);
    }
  }

  /** The value `calculateWorkingDays` yields, as a function: the count over
      the dates of the in-range holiday query's rows. The service's
      application path uses this form; `CalculateWorkingDays` computes it. */
  function WorkingDaysOf(holidayTable: seq<CompanyHoliday>, start: Date, end: Date): (n: nat)
    ensures n == |WorkingDatesIn(start, end, ActiveDates(holidayTable))|
    ensures n <= Span(start, end)
  {
    RangeQuerySufficesForCount(start, end, holidayTable);
    CountIsNumberOfWorkingDates(start, end, ActiveDates(holidayTable));
    CountWorkingDays(start, end, DatesOf(HolidaysInRange(holidayTable, start, end)))
  }

  /** `calculateWorkingDays`: fetch the active holidays of the range once,
      then count the working dates against the fetched rows. */
  method CalculateWorkingDays(start: Date, end: Date, holidayTable: seq<CompanyHoliday>) returns (n: int)
    ensures n == WorkingDaysOf(holidayTable, start, end)
    ensures n == CountWorkingDays(start, end, ActiveDates(holidayTable))
    ensures n == |WorkingDatesIn(start, end, ActiveDates(holidayTable))|
    ensures 0 <= n <= Span(start, end)
  {
    var holidays := HolidaysInRange(holidayTable, start, end);
    n := WalkRange(start, end, holidays);
    RangeQuerySufficesForCount(start, end, holidayTable);
    CountIsNumberOfWorkingDates(start, end, ActiveDates(holidayTable));
  }

  /** The loop of `calculateWorkingDays`: walk from start to end, skipping
      weekends and any date that matches one of the fetched holiday rows. */
  method WalkRange(start: Date, end: Date, holidays: seq<CompanyHoliday>) returns (n: int)
    ensures n == CountWorkingDays(start, end, DatesOf(holidays))
  {
    ghost var dates := DatesOf(holidays);
    n := 0;
    var current := start;
    while current <= end
      invariant start <= current
      invariant start <= end ==> current <= end + 1
      invariant start > end ==> current == start
      invariant n == CountWorkingDays(start, current - 1, dates)
    {
      if !IsWeekend(current) {
        var isHoliday := exists h :: h in holidays && h.date == current;
        HolidayMatchIsDateMembership(holidays, current);
        if !isHoliday {
          n := n + 1;
        }
      }
      assert CountWorkingDays(start, current, dates)
          == CountWorkingDays(start, current - 1, dates) + (if IsWorkingDay(current, dates) then 1 else 0);
      current := current + 1;
    }
  }

  /** The `anyMatch` over the fetched rows is membership in their dates. */
  lemma HolidayMatchIsDateMembership(holidays: seq<CompanyHoliday>, d: Date)
    ensures (exists h :: h in holidays && h.date == d) <==> d in DatesOf(holidays)
  {
  }

  /** Only the holidays inside [start, end] matter: two holiday sets that agree
      on the range give the same count. */
  lemma {:induction false} CountDependsOnlyOnRange(start: Date, end: Date, h1: set<Date>, h2: set<Date>)
    requires forall d :: start <= d <= end ==> (d in h1 <==> d in h2)
    ensures CountWorkingDays(start, end, h1) == CountWorkingDays(start, end, h2)
    decreases Span(start, end)
  {
    if start <= end {
      CountDependsOnlyOnRange(start, end - 1, h1, h2);
    }
  }

  /** Counting over the active holidays of the whole table gives the same
      result as counting over the in-range query's rows. */
  lemma RangeQuerySufficesForCount(start: Date, end: Date, holidayTable: seq<CompanyHoliday>)
    ensures CountWorkingDays(start, end, DatesOf(HolidaysInRange(holidayTable, start, end)))
         == CountWorkingDays(start, end, ActiveDates(holidayTable))
  {
    RangeQueryAgreesWithActiveDates(holidayTable, start, end);
    CountDependsOnlyOnRange(start, end, DatesOf(HolidaysInRange(holidayTable, start, end)), ActiveDates(holidayTable));
  }

  /** Splitting a range at any point splits the count. */
  lemma {:induction false} CountSplits(start: Date, mid: Date, end: Date, holidays: set<Date>)
    requires start - 1 <= mid <= end
    ensures CountWorkingDays(start, end, holidays)
         == CountWorkingDays(start, mid, holidays) + CountWorkingDays(mid + 1, end, holidays)
    decreases end - mid
  {
    if mid < end {
      CountSplits(start, mid, end - 1, holidays);
    }
  }

  /** Seven consecutive dates without holidays hold exactly five working days. */
  lemma FullWeekHasFiveWorkingDays(start: Date)
    ensures CountWorkingDays(start, start + 6, {}) == 5
  {
    var w := DayOfWeek(start);
    assert DayOfWeek(start + 1) == (w + 1) % 7;
    assert DayOfWeek(start + 2) == (w + 2) % 7;
    assert DayOfWeek(start + 3) == (w + 3) % 7;
    assert DayOfWeek(start + 4) == (w + 4) % 7;
    assert DayOfWeek(start + 5) == (w + 5) % 7;
    assert DayOfWeek(start + 6) == (w + 6) % 7;
    var c0 := CountWorkingDays(start, start, {});
    var c1 := CountWorkingDays(start, start + 1, {});
    var c2 := CountWorkingDays(start, start + 2, {});
    var c3 := CountWorkingDays(start, start + 3, {});
    var c4 := CountWorkingDays(start, start + 4, {});
    var c5 := CountWorkingDays(start, start + 5, {});
    assert CountWorkingDays(start, start - 1, {}) == 0;
  }

  /** A Saturday-to-Sunday range has no working day, whatever the holidays. */
  lemma WeekendHasNoWorkingDay(saturday: Date, holidays: set<Date>)
    requires DayOfWeek(saturday) == Saturday
    ensures CountWorkingDays(saturday, saturday + 1, holidays) == 0
  {
    assert DayOfWeek(saturday + 1) == Sunday;
  }
}
