/** Proleptic Gregorian calendar arithmetic at hourly granularity, as pandas
    Timestamps use it: calendar fields, a day count from 0001-01-01 and an
    hour count built on it, the next hour, and the UTC-3 shift to Brasilia time. */
module Calendar {

  datatype Date = Date(year: int, month: nat, day: nat) {
    predicate Valid() {
      1 <= month <= 12 && 1 <= day <= DaysInMonth(year, month)
    }
  }

  datatype Timestamp = Timestamp(year: int, month: nat, day: nat, hour: nat) {
    predicate Valid() {
      Day().Valid() && 0 <= hour < 24
    }

    /** The calendar day this timestamp falls on. */
    function Day(): Date {
      Date(year, month, day)
    }
  }

  function Midnight(d: Date): Timestamp {
    Timestamp(d.year, d.month, d.day, 0)
  }

  predicate IsLeapYear(y: int) {
    y % 4 == 0 && (y % 100 != 0 || y % 400 == 0)
  }

  function DaysInMonth(y: int, m: int): int
    requires 1 <= m <= 12
  {
    if m == 2 then (if IsLeapYear(y) then 29 else 28)
    else if m == 4 || m == 6 || m == 9 || m == 11 then 30
    else 31
  }

  function DaysInYear(y: int): int {
    if IsLeapYear(y) then 366 else 365
  }

  /** Days of year y that come before the first of month m. */
  function DaysBeforeMonth(y: int, m: int): int
    requires 1 <= m <= 12
  {
    var common := [0, 31, 59, 90, 120, 151, 181, 212, 243, 273, 304, 334][m - 1];
    if m > 2 && IsLeapYear(y) then common + 1 else common
  }

  /** Days from 0001-01-01 to January 1st of year y (negative before year 1). */
  function DaysBeforeYear(y: int): int
    decreases if y >= 1 then y else 2 - y
  {
    if y == 1 then 0
    else if y > 1 then DaysBeforeYear(y - 1) + DaysInYear(y - 1)
    else DaysBeforeYear(y + 1) - DaysInYear(y)
  }

  /** Day count of d, 0001-01-01 being day 0. */
  function DayNumber(d: Date): int
    requires d.Valid()
  {
    DaysBeforeYear(d.year) + DaysBeforeMonth(d.year, d.month) + d.day - 1
  }

  /** Hour count of t, 0001-01-01 00:00 being hour 0: the instant pandas compares. */
  function HourNumber(t: Timestamp): int
    requires t.Valid()
  {
    24 * DayNumber(t.Day()) + t.hour
  }

  /** Lexicographic order on (year, month, day): how the calendar fields compare. */
  predicate DateBefore(a: Date, b: Date) {
    a.year < b.year
    || (a.year == b.year && (a.month < b.month || (a.month == b.month && a.day < b.day)))
  }

  /** Lexicographic order on (year, month, day, hour). */
  predicate FieldsBefore(a: Timestamp, b: Timestamp) {
    DateBefore(a.Day(), b.Day()) || (a.Day() == b.Day() && a.hour < b.hour)
  }

  lemma MonthStep(y: int, m: int)
    requires 1 <= m < 12
    ensures DaysBeforeMonth(y, m + 1) == DaysBeforeMonth(y, m) + DaysInMonth(y, m)
  {
  }

  lemma LastMonth(y: int)
    ensures DaysBeforeMonth(y, 12) + DaysInMonth(y, 12) == DaysInYear(y)
  {
  }

  lemma YearStep(y: int)
    ensures DaysBeforeYear(y + 1) == DaysBeforeYear(y) + DaysInYear(y)
  {
    if y < 1 {
      assert DaysBeforeYear(y) == DaysBeforeYear(y + 1) - DaysInYear(y);
    }
  }

  /** Later years start strictly later. */
  lemma {:induction false} YearsIncrease(a: int, b: int)
    requires a < b
    ensures DaysBeforeYear(a) + DaysInYear(a) <= DaysBeforeYear(b)
    decreases b - a
  {
    YearStep(a);
    if a + 1 < b {
      YearsIncrease(a + 1, b);
      YearStep(a + 1);
    }
  }

  /** Later months of one year start strictly later. */
  lemma {:induction false} MonthsIncrease(y: int, a: int, b: int)
    requires 1 <= a < b <= 12
    ensures DaysBeforeMonth(y, a) + DaysInMonth(y, a) <= DaysBeforeMonth(y, b)
    decreases b - a
  {
    MonthStep(y, a);
    if a + 1 < b {
      MonthsIncrease(y, a + 1, b);
    }
  }

  /** A valid date lies within its year. */
  lemma DayWithinYear(d: Date)
    requires d.Valid()
    ensures DaysBeforeYear(d.year) <= DayNumber(d) < DaysBeforeYear(d.year) + DaysInYear(d.year)
  {
    if d.month < 12 {
      MonthsIncrease(d.year, d.month, 12);
    }
    LastMonth(d.year);
  }

  /** The day count orders dates exactly as their calendar fields do. */
  lemma DayNumberOrder(a: Date, b: Date)
    requires a.Valid() && b.Valid()
    ensures DayNumber(a) < DayNumber(b) <==> DateBefore(a, b)
    ensures DayNumber(a) == DayNumber(b) <==> a == b
  {
    DayWithinYear(a);
    DayWithinYear(b);
    if a.year < b.year {
      YearsIncrease(a.year, b.year);
    } else if b.year < a.year {
      YearsIncrease(b.year, a.year);
    } else if a.month < b.month {
      MonthsIncrease(a.year, a.month, b.month);
    } else if b.month < a.month {
      MonthsIncrease(a.year, b.month, a.month);
    }
  }

  /** Chronological order of hours is lexicographic order of their fields,
      and distinct valid timestamps denote distinct instants. */
  lemma HourNumberOrder(a: Timestamp, b: Timestamp)
    requires a.Valid() && b.Valid()
    ensures HourNumber(a) < HourNumber(b) <==> FieldsBefore(a, b)
    ensures HourNumber(a) == HourNumber(b) <==> a == b
  {
    DayNumberOrder(a.Day(), b.Day());
  }

  function NextDay(d: Date): (r: Date)
    requires d.Valid()
    ensures r.Valid() && DayNumber(r) == DayNumber(d) + 1
  {
    if d.day < DaysInMonth(d.year, d.month) then
      Date(d.year, d.month, d.day + 1)
    else if d.month < 12 then
      MonthStep(d.year, d.month);
      Date(d.year, d.month + 1, 1)
    else
      LastMonth(d.year);
      YearStep(d.year);
      Date(d.year + 1, 1, 1)
  }

  function PreviousDay(d: Date): (r: Date)
    requires d.Valid()
    ensures r.Valid() && DayNumber(r) == DayNumber(d) - 1
  {
    if d.day > 1 then
      Date(d.year, d.month, d.day - 1)
    else if d.month > 1 then
      MonthStep(d.year, d.month - 1);
      Date(d.year, d.month - 1, DaysInMonth(d.year, d.month - 1))
    else
      LastMonth(d.year - 1);
      YearStep(d.year - 1);
      Date(d.year - 1, 12, 31)
  }

  /** The hour after t, rolling over day, month and year boundaries. */
  function NextHour(t: Timestamp): (r: Timestamp)
    requires t.Valid()
    ensures r.Valid() && HourNumber(r) == HourNumber(t) + 1
  {
    if t.hour < 23 then
      Timestamp(t.year, t.month, t.day, t.hour + 1)
    else
      var d := NextDay(t.Day());
      Timestamp(d.year, d.month, d.day, 0)
  }

  /** The same instant in Brasilia time: t minus 3 hours.  UTC hours 0-2 land on
      the previous calendar day, hours 3-23 stay on the same day. */
  function ToBrasilia(t: Timestamp): (r: Timestamp)
    requires t.Valid()
    ensures r.Valid() && HourNumber(r) == HourNumber(t) - 3
    ensures t.hour >= 3 ==> r.Day() == t.Day() && r.hour == t.hour - 3
    ensures t.hour < 3 ==> DayNumber(r.Day()) == DayNumber(t.Day()) - 1 && r.hour == t.hour + 21
  {
    if t.hour >= 3 then
      Timestamp(t.year, t.month, t.day, t.hour - 3)
    else
      var d := PreviousDay(t.Day());
      Timestamp(d.year, d.month, d.day, t.hour + 21)
  }
}
