/** Calendar dates as epoch days: day 0 is 1970-01-01, a Thursday. */
module Calendar {

  type Date = int

  /** Day of the week with Monday = 0 … Sunday = 6, as `LocalDate.getDayOfWeek`
      computes it (a floor modulus, which Dafny's `%` is for a positive divisor). */
  function DayOfWeek(d: Date): (w: int)
    ensures 0 <= w < 7
  {
    (d + 3) % 7
  }

  const Saturday := 5
  const Sunday := 6

  predicate IsWeekend(d: Date)
  {
    DayOfWeek(d) == Saturday || DayOfWeek(d) == Sunday
  }

  /** `d` lies in the inclusive range [start, end]. */
  predicate InRange(d: Date, start: Date, end: Date)
  {
    start <= d <= end
  }

  /** Number of dates in the inclusive range [start, end]; 0 when start > end. */
  function Span(start: Date, end: Date): (n: nat)
    ensures start <= end ==> n == end - start + 1
    ensures start > end ==> n == 0
  {
    if start > end then 0 else end - start + 1
  }
}
