/**
 * The proleptic Gregorian calendar of java.time's ISO chronology: leap years, month lengths and
 * the numbering of days from the epoch day 1970-01-01 (day 0), in both directions.
 */
module Calendar {

  predicate IsLeapYear(y: int) {
    y % 4 == 0 && (y % 100 != 0 || y % 400 == 0)
  }

  function DaysInYear(y: int): int {
    if IsLeapYear(y) then 366 else 365
  }

  function DaysInMonth(y: int, m: int): int
    requires 1 <= m <= 12
  {
    if m == 2 then (if IsLeapYear(y) then 29 else 28)
    else if m == 4 || m == 6 || m == 9 || m == 11 then 30
    else 31
  }

  /** Days of year `y` before the first day of month `m` (month 13 stands for the next year). */
  function DaysBeforeMonth(y: int, m: int): int
    requires 1 <= m <= 13
  {
    var leap := if IsLeapYear(y) then 1 else 0;
    if m == 1 then 0 else if m == 2 then 31 else if m == 3 then 59 + leap
    else if m == 4 then 90 + leap else if m == 5 then 120 + leap else if m == 6 then 151 + leap
    else if m == 7 then 181 + leap else if m == 8 then 212 + leap else if m == 9 then 243 + leap
    else if m == 10 then 273 + leap else if m == 11 then 304 + leap else if m == 12 then 334 + leap
    else 365 + leap
  }

  lemma DaysBeforeNextMonth(y: int, m: int)
    requires 1 <= m <= 12
    ensures DaysBeforeMonth(y, m + 1) == DaysBeforeMonth(y, m) + DaysInMonth(y, m)
    ensures DaysBeforeMonth(y, 13) == DaysInYear(y)
  {
  }

  /** Epoch day of January 1st of year `y`: the lengths of the years from 1970 up to `y`, or
      minus those from `y` up to 1970. */
  function DaysBeforeYear(y: int): int
    decreases if y < 1970 then 1970 - y else y - 1970
  {
    if y == 1970 then 0
    else if y > 1970 then DaysBeforeYear(y - 1) + DaysInYear(y - 1)
    else DaysBeforeYear(y + 1) - DaysInYear(y)
  }

  lemma DaysBeforeNextYear(y: int)
    ensures DaysBeforeYear(y + 1) == DaysBeforeYear(y) + DaysInYear(y)
  {
  }

  lemma {:induction false} DaysBeforeYearMonotone(a: int, b: int)
    requires a <= b
    ensures DaysBeforeYear(a) + 365 * (b - a) <= DaysBeforeYear(b)
    decreases b - a
  {
    if a < b {
      DaysBeforeNextYear(a);
      DaysBeforeYearMonotone(a + 1, b);
    }
  }

  datatype Date = Date(year: int, month: int, day: int)

  predicate ValidDate(d: Date) {
    1 <= d.month <= 12 && 1 <= d.day <= DaysInMonth(d.year, d.month)
  }

  /** `LocalDate.toEpochDay()`. */
  function EpochDay(d: Date): int
    requires 1 <= d.month <= 12
  {
    DaysBeforeYear(d.year) + DaysBeforeMonth(d.year, d.month) + d.day - 1
  }

  /** The year holding epoch day `z`, searching upwards from year `y`. */
  function YearUp(z: int, y: int): (r: int)
    requires DaysBeforeYear(y) <= z
    ensures DaysBeforeYear(r) <= z < DaysBeforeYear(r + 1)
    decreases z - DaysBeforeYear(y)
  {
    DaysBeforeNextYear(y);
    if z < DaysBeforeYear(y + 1) then y else YearUp(z, y + 1)
  }

  /** The year holding epoch day `z`, searching downwards from year `y`. */
  function YearDown(z: int, y: int): (r: int)
    requires z < DaysBeforeYear(y + 1)
    ensures DaysBeforeYear(r) <= z < DaysBeforeYear(r + 1)
    decreases DaysBeforeYear(y + 1) - z
  {
    DaysBeforeNextYear(y);
    if DaysBeforeYear(y) <= z then y else YearDown(z, y - 1)
  }

  function YearOfEpochDay(z: int): (r: int)
    ensures DaysBeforeYear(r) <= z < DaysBeforeYear(r + 1)
  {
    if z >= 0 then YearUp(z, 1970) else YearDown(z, 1969)
  }

  /** The month holding day-of-year `doy` (counted from 0). */
  function MonthOfDayOfYear(y: int, doy: int): (m: int)
    requires 0 <= doy < DaysInYear(y)
    ensures 1 <= m <= 12 && DaysBeforeMonth(y, m) <= doy < DaysBeforeMonth(y, m + 1)
  {
    if doy < DaysBeforeMonth(y, 2) then 1 else if doy < DaysBeforeMonth(y, 3) then 2
    else if doy < DaysBeforeMonth(y, 4) then 3 else if doy < DaysBeforeMonth(y, 5) then 4
    else if doy < DaysBeforeMonth(y, 6) then 5 else if doy < DaysBeforeMonth(y, 7) then 6
    else if doy < DaysBeforeMonth(y, 8) then 7 else if doy < DaysBeforeMonth(y, 9) then 8
    else if doy < DaysBeforeMonth(y, 10) then 9 else if doy < DaysBeforeMonth(y, 11) then 10
    else if doy < DaysBeforeMonth(y, 12) then 11 else 12
  }

  /** `LocalDate.ofEpochDay(z)`: a valid date whose epoch day is `z`. */
  function DateOfEpochDay(z: int): (d: Date)
    ensures ValidDate(d) && EpochDay(d) == z
  {
    var y := YearOfEpochDay(z);
    DaysBeforeNextYear(y);
    var doy := z - DaysBeforeYear(y);
    var m := MonthOfDayOfYear(y, doy);
    DaysBeforeNextMonth(y, m);
    Date(y, m, doy - DaysBeforeMonth(y, m) + 1)
  }

  /** Epoch days and valid dates are in one-to-one correspondence. */
  lemma DateOfEpochDayOfDate(d: Date)
    requires ValidDate(d)
    ensures DateOfEpochDay(EpochDay(d)) == d
  {
    var z := EpochDay(d);
    var y := YearOfEpochDay(z);
    DaysBeforeNextYear(d.year);
    DaysBeforeNextMonth(d.year, d.month);
    DaysBeforeMonthMonotone(d.year, d.month + 1, 13);
    SameYear(d.year, y, z);
    var doy := z - DaysBeforeYear(y);
    var m := MonthOfDayOfYear(y, doy);
    SameMonth(y, d.month, m, doy);
  }

  lemma SameMonth(y: int, a: int, b: int, doy: int)
    requires 1 <= a <= 12 && 1 <= b <= 12
    requires DaysBeforeMonth(y, a) <= doy < DaysBeforeMonth(y, a + 1)
    requires DaysBeforeMonth(y, b) <= doy < DaysBeforeMonth(y, b + 1)
    ensures a == b
  {
    if a < b {
      DaysBeforeMonthMonotone(y, a + 1, b);
    } else if b < a {
      DaysBeforeMonthMonotone(y, b + 1, a);
    }
  }

  lemma DaysBeforeMonthMonotone(y: int, a: int, b: int)
    requires 1 <= a <= b <= 13
    ensures DaysBeforeMonth(y, a) <= DaysBeforeMonth(y, b)
  {
  }

  lemma SameYear(a: int, b: int, z: int)
    requires DaysBeforeYear(a) <= z < DaysBeforeYear(a + 1)
    requires DaysBeforeYear(b) <= z < DaysBeforeYear(b + 1)
    ensures a == b
  {
    if a < b {
      DaysBeforeYearMonotone(a + 1, b);
    } else if b < a {
      DaysBeforeYearMonotone(b + 1, a);
    }
  }

  /** The epoch day of an instant given in seconds from the epoch (86400 seconds a day, floor division). */
  function DayOfSecond(t: int): int {
    t / 86400
  }

  lemma DayOfSecondBounds(t: int)
    ensures DayOfSecond(t) * 86400 <= t < DayOfSecond(t) * 86400 + 86400
  {
  }

  lemma DayOfSecondMonotone(s: int, t: int)
    requires s <= t
    ensures DayOfSecond(s) <= DayOfSecond(t)
  {
    DayOfSecondBounds(s);
    DayOfSecondBounds(t);
  }

  lemma DayOfMidnight(d: int, r: int)
    requires 0 <= r < 86400
    ensures DayOfSecond(d * 86400 + r) == d
  {
    DayOfSecondBounds(d * 86400 + r);
  }
}
