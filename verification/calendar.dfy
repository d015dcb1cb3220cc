/** Local calendar time as JavaScript's `Date` sees it: a proleptic Gregorian
    date with a time of day, its position on the millisecond time line, and
    `setFullYear`. Time zones and daylight saving are outside the model: local
    time is taken to be the time line itself. */
module Calendar {

  const MsPerDay: int := 86_400_000

  /** A calendar date and a time of day. `month` runs from 1 to 12 here
      (JavaScript counts it from 0); `msOfDay` is the time of day in
      milliseconds. */
  datatype DateTime = DateTime(year: int, month: int, day: int, msOfDay: int)

  predicate IsLeapYear(y: int) {
    y % 4 == 0 && (y % 100 != 0 || y % 400 == 0)
  }

  function DaysInYear(y: int): int {
    if IsLeapYear(y) then 366 else 365
  }

  function DaysInMonth(y: int, m: int): int
    requires 1 <= m <= 12
  {
    if m == 2 then (if IsLeapYear(y) then 29 else 28)
    else if m == 4 || m == 6 || m == 9 || m == 11 then 30
    else 31
  }

  /** A date that names an existing day of its month and a time within it. */
  predicate Valid(d: DateTime) {
    && 1 <= d.month <= 12
    && 1 <= d.day <= DaysInMonth(d.year, d.month)
    && 0 <= d.msOfDay < MsPerDay
  }

  /** Days of year `y` before the first of month `m`. */
  function DaysBeforeMonth(y: int, m: int): (r: int)
    requires 1 <= m <= 12
    ensures 0 <= r && r + DaysInMonth(y, m) <= DaysInYear(y)
    ensures m == 12 ==> r + DaysInMonth(y, m) == DaysInYear(y)
  {
    var leap := if IsLeapYear(y) && m > 2 then 1 else 0;
    (match m
     case 1 => 0 case 2 => 31 case 3 => 59 case 4 => 90
     case 5 => 120 case 6 => 151 case 7 => 181 case 8 => 212
     case 9 => 243 case 10 => 273 case 11 => 304 case _ => 334) + leap
  }

  /** Days from 1 January 1970 to 1 January of year `y`; negative before 1970. */
  function DaysBeforeYear(y: int): int
    decreases if y >= 1970 then y - 1970 else 1970 - y
  {
    if y == 1970 then 0
    else if y > 1970 then DaysBeforeYear(y - 1) + DaysInYear(y - 1)
    else DaysBeforeYear(y + 1) - DaysInYear(y)
  }

  /** Every year, on both sides of 1970, is as long as the step to the next. */
  lemma {:induction false} DaysBeforeNextYear(y: int)
    ensures DaysBeforeYear(y + 1) == DaysBeforeYear(y) + DaysInYear(y)
  {
    // Both branches of the definition, read in the right direction.
    if y >= 1970 {
      assert DaysBeforeYear(y + 1) == DaysBeforeYear(y) + DaysInYear(y);
    } else {
      assert y + 1 <= 1970;
      if y + 1 == 1970 {
        assert DaysBeforeYear(y) == 0 - DaysInYear(y);
      } else {
        assert DaysBeforeYear(y) == DaysBeforeYear(y + 1) - DaysInYear(y);
      }
    }
  }

  /** Later years start later. */
  lemma {:induction false} DaysBeforeYearMonotone(y1: int, y2: int)
    requires y1 < y2
    ensures DaysBeforeYear(y1) + DaysInYear(y1) <= DaysBeforeYear(y2)
    decreases y2 - y1
  {
    DaysBeforeNextYear(y1);
    if y1 + 1 < y2 {
      DaysBeforeYearMonotone(y1 + 1, y2);
    }
  }

  /** The day number of a date, counted from 1 January 1970. */
  function EpochDay(d: DateTime): int
    requires Valid(d)
  {
    DaysBeforeYear(d.year) + DaysBeforeMonth(d.year, d.month) + d.day - 1
  }

  /** `Date.prototype.getTime` for a local date and time. */
  function Millis(d: DateTime): int
    requires Valid(d)
  {
    EpochDay(d) * MsPerDay + d.msOfDay
  }

  /** A date's instant lies within its year. */
  lemma MillisWithinYear(d: DateTime)
    requires Valid(d)
    ensures DaysBeforeYear(d.year) * MsPerDay <= Millis(d)
    ensures Millis(d) < (DaysBeforeYear(d.year) + DaysInYear(d.year)) * MsPerDay
  {
    var e := EpochDay(d);
    assert e + 1 <= DaysBeforeYear(d.year) + DaysInYear(d.year);
    assert e * MsPerDay + d.msOfDay < (e + 1) * MsPerDay;
  }

  /** A date in an earlier year is an earlier instant. */
  lemma EarlierYearEarlierInstant(a: DateTime, b: DateTime)
    requires Valid(a) && Valid(b) && a.year < b.year
    ensures Millis(a) < Millis(b)
  {
    MillisWithinYear(a);
    MillisWithinYear(b);
    DaysBeforeYearMonotone(a.year, b.year);
  }

  /** Within one year, instants are ordered by month, then day, then time. */
  lemma SameYearOrder(a: DateTime, b: DateTime)
    requires Valid(a) && Valid(b) && a.year == b.year
    ensures Millis(a) < Millis(b) <==>
      || a.month < b.month
      || (a.month == b.month && a.day < b.day)
      || (a.month == b.month && a.day == b.day && a.msOfDay < b.msOfDay)
  {
    if a.month < b.month {
      DaysBeforeMonthMonotone(a.year, a.month, b.month);
    } else if b.month < a.month {
      DaysBeforeMonthMonotone(a.year, b.month, a.month);
    }
  }

  /** The table is cumulative: each month starts where the previous one ends. */
  lemma DaysBeforeNextMonth(y: int, m: int)
    requires 1 <= m < 12
    ensures DaysBeforeMonth(y, m + 1) == DaysBeforeMonth(y, m) + DaysInMonth(y, m)
  {
  }

  lemma {:induction false} DaysBeforeMonthMonotone(y: int, m1: int, m2: int)
    requires 1 <= m1 < m2 <= 12
    ensures DaysBeforeMonth(y, m1) + DaysInMonth(y, m1) <= DaysBeforeMonth(y, m2)
    decreases m2 - m1
  {
    DaysBeforeNextMonth(y, m1);
    if m1 + 1 < m2 {
      DaysBeforeMonthMonotone(y, m1 + 1, m2);
    }
  }

  /** Two valid dates at the same instant are the same date. */
  lemma MillisInjective(a: DateTime, b: DateTime)
    requires Valid(a) && Valid(b) && Millis(a) == Millis(b)
    ensures a == b
  {
    if a.year < b.year {
      EarlierYearEarlierInstant(a, b);
    } else if b.year < a.year {
      EarlierYearEarlierInstant(b, a);
    } else {
      SameYearOrder(a, b);
      SameYearOrder(b, a);
    }
  }

  /** `Date.prototype.setFullYear(y)`: the year changes and the month, day and
      time are kept, except that 29 February moved to a common year is
      normalised to 1 March, as JavaScript's date arithmetic does. */
  function SetFullYear(d: DateTime, y: int): (r: DateTime)
    requires Valid(d)
    ensures Valid(r) && r.year == y && r.msOfDay == d.msOfDay
    ensures d.day <= DaysInMonth(y, d.month) ==> r == d.(year := y)
    ensures d.day > DaysInMonth(y, d.month) ==>
      d.month == 2 && d.day == 29 && !IsLeapYear(y)
      && Millis(r) == Millis(DateTime(y, 2, 28, d.msOfDay)) + MsPerDay
  {
    if d.day <= DaysInMonth(y, d.month) then d.(year := y)
    else DateTime(y, 3, 1, d.msOfDay)
  }
}
