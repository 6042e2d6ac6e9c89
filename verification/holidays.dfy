/** The company holiday calendar and the two holiday queries the leave
    service reads (`CompanyHolidayRepository`). */
module Holidays {
  import opened Calendar
  import opened Sorting

  /** A row of the holiday table; `status` is 'A' (active) or 'I' (inactive),
      and `year` is a column of its own, not derived from `date`. */
  datatype CompanyHoliday = CompanyHoliday(
    id: int,
    name: string,
    date: Date,
    year: int,
    status: char)

  predicate IsActiveHoliday(h: CompanyHoliday)
  {
    h.status == 'A'
  }

  function HolidayDate(h: CompanyHoliday): int
  {
    h.date
  }

  /** The dates of the given holiday rows. */
  function DatesOf(hs: seq<CompanyHoliday>): set<Date>
  {
    set h | h in hs :: h.date
  }

  /** The dates of every active holiday, whatever its year or position. */
  function ActiveDates(hs: seq<CompanyHoliday>): set<Date>
  {
    set h | h in hs && IsActiveHoliday(h) :: h.date
  }

  predicate ActiveIn(h: CompanyHoliday, start: Date, end: Date)
  {
    start <= h.date <= end && IsActiveHoliday(h)
  }

  predicate ActiveOfYear(h: CompanyHoliday, year: int)
  {
    h.year == year && IsActiveHoliday(h)
  }

  /** `findHolidaysInRange`: the active holidays dated in [start, end]
      (inclusive `BETWEEN`), ascending by date. */
  function HolidaysInRange(hs: seq<CompanyHoliday>, start: Date, end: Date): (r: seq<CompanyHoliday>)
    ensures forall h :: h in r <==> h in hs && ActiveIn(h, start, end)
    ensures forall h :: ActiveIn(h, start, end) ==> multiset(r)[h] == multiset(hs)[h]
    ensures multiset(r) <= multiset(hs)
    ensures SortedBy(r, HolidayDate)
  {
    var kept := FilterBy(hs, h => ActiveIn(h, start, end));
    assert forall h :: h in kept <==> h in hs && ActiveIn(h, start, end);
    var r := SortBy(kept, HolidayDate);
    SameMembers(r, kept);
    r
  }

  /** `findByYearAndStatusOrderByHolidayDate(year, 'A')`: the active holidays
      whose year column is `year`, ascending by date. */
  function HolidaysOfYear(hs: seq<CompanyHoliday>, year: int): (r: seq<CompanyHoliday>)
    ensures forall h :: h in r <==> h in hs && ActiveOfYear(h, year)
    ensures forall h :: ActiveOfYear(h, year) ==> multiset(r)[h] == multiset(hs)[h]
    ensures multiset(r) <= multiset(hs)
    ensures SortedBy(r, HolidayDate)
  {
    var kept := FilterBy(hs, h => ActiveOfYear(h, year));
    assert forall h :: h in kept <==> h in hs && ActiveOfYear(h, year);
    var r := SortBy(kept, HolidayDate);
    SameMembers(r, kept);
    r
  }

  /** Inside the queried window, the dates returned by the range query are
      exactly the active holiday dates. */
  lemma RangeQueryAgreesWithActiveDates(hs: seq<CompanyHoliday>, start: Date, end: Date)
    ensures forall d :: start <= d <= end ==>
      (d in DatesOf(HolidaysInRange(hs, start, end)) <==> d in ActiveDates(hs))
  {
    var r := HolidaysInRange(hs, start, end);
    forall d | start <= d <= end
      ensures d in DatesOf(r) <==> d in ActiveDates(hs)
    {
      if d in ActiveDates(hs) {
        var h :| h in hs && IsActiveHoliday(h) && h.date == d;
        assert h in r;
      }
    }
  }
}
