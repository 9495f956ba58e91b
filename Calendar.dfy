/** Calendar dates as the employee handlers see them once JavaScript's `Date`
    has parsed a `YYYY-MM-DD` string: a proleptic Gregorian year, month and day.
    Time of day and time zones are not part of the model. */
module Calendar {

  datatype Date = Date(year: int, month: int, day: int)

  /** Gregorian leap years; Dafny's `%` is Euclidean, which gives the
      astronomical year numbering JavaScript uses for years before 1. */
  predicate IsLeapYear(y: int) {
    y % 4 == 0 && (y % 100 != 0 || y % 400 == 0)
  }

  function DaysInMonth(y: int, m: int): (n: int)
    requires 1 <= m <= 12
    ensures 28 <= n <= 31
    ensures m == 2 <==> n < 30
    ensures n == 29 <==> m == 2 && IsLeapYear(y)
  {
    if m == 2 then (if IsLeapYear(y) then 29 else 28)
    else if m == 4 || m == 6 || m == 9 || m == 11 then 30
    else 31
  }

  predicate IsValid(d: Date) {
    1 <= d.month <= 12 && 1 <= d.day <= DaysInMonth(d.year, d.month)
  }

  type CalendarDate = d: Date | IsValid(d) witness Date(1970, 1, 1)

  /** What a date field of a request or of the form holds: nothing (a missing,
      empty or otherwise falsy value), a string JavaScript cannot parse
      (`Invalid Date`, whose time value is NaN), or a calendar date. */
  datatype DateInput = Blank | Unparsable | On(date: CalendarDate)

  /** Chronological order of (month, day) pairs within a year. */
  predicate MonthDayBefore(m1: int, d1: int, m2: int, d2: int) {
    m1 < m2 || (m1 == m2 && d1 < d2)
  }

  /** `a` is strictly earlier than `b`. */
  predicate Before(a: Date, b: Date) {
    a.year < b.year || (a.year == b.year && MonthDayBefore(a.month, a.day, b.month, b.day))
  }

  predicate OnOrBefore(a: Date, b: Date) {
    !Before(b, a)
  }

  /** The calendar day after `d`. */
  function NextDay(d: CalendarDate): (r: CalendarDate)
    ensures Before(d, r)
    ensures forall e: CalendarDate :: Before(d, e) ==> OnOrBefore(r, e)
  {
    if d.day < DaysInMonth(d.year, d.month) then Date(d.year, d.month, d.day + 1)
    else if d.month < 12 then Date(d.year, d.month + 1, 1)
    else Date(d.year + 1, 1, 1)
  }

  /** `Date.prototype.setFullYear(y)`: the month and day are kept and the
      result is normalised like any JavaScript date, so a day past the end of
      its month rolls into the next month. Within valid dates that only
      happens to 29 February moved to a common year, which becomes 1 March. */
  function SetFullYear(d: CalendarDate, y: int): (r: CalendarDate)
    ensures r.year == y
    ensures !(d.month == 2 && d.day == 29 && !IsLeapYear(y)) ==> r.month == d.month && r.day == d.day
    ensures d.month == 2 && d.day == 29 && !IsLeapYear(y) ==> r.month == 3 && r.day == 1
  {
    var n := DaysInMonth(y, d.month);
    if d.day <= n then Date(y, d.month, d.day)
    else Date(y, d.month + 1, d.day - n)
  }

  /** Reference definition of age: the number of completed years, lowered by
      one while the birth month and day have not yet come round this year. */
  function CompletedYears(dob: Date, today: Date): (years: int) {
    today.year - dob.year - (if MonthDayBefore(today.month, today.day, dob.month, dob.day) then 1 else 0)
  }
}
