/** Proleptic Gregorian calendar dates and their day numbers, the days
    counted from 1970-01-01 (day 0), which is how the application's `Date`
    values are ordered and subtracted. All dates are taken in UTC. */
module Civil {

  predicate IsLeapYear(y: int) {
    y % 4 == 0 && (y % 100 != 0 || y % 400 == 0)
  }

  function YearLength(y: int): (n: int)
    ensures n == 365 || n == 366
  {
    if IsLeapYear(y) then 366 else 365
  }

  function DaysInMonth(y: int, m: int): (n: int)
    requires 1 <= m <= 12
    ensures 28 <= n <= 31
  {
    if m == 2 then (if IsLeapYear(y) then 29 else 28)
    else if m == 4 || m == 6 || m == 9 || m == 11 then 30
    else 31
  }

  /** The day number of January 1 of year `y`. */
  function YearStart(y: int): int
    decreases if y >= 1970 then y - 1970 else 1970 - y
  {
    if y == 1970 then 0
    else if y > 1970 then YearStart(y - 1) + YearLength(y - 1)
    else YearStart(y + 1) - YearLength(y)
  }

  /** Consecutive years follow each other without gap or overlap. */
  lemma YearStartNext(y: int)
    ensures YearStart(y + 1) == YearStart(y) + YearLength(y)
  {
  }

  lemma {:induction false} YearStartMonotone(a: int, b: int)
    requires a < b
    ensures YearStart(a) + YearLength(a) <= YearStart(b)
    decreases b - a
  {
    YearStartNext(a);
    if a + 1 < b {
      YearStartMonotone(a + 1, b);
    }
  }

  /** Days of the months before month `m` of year `y`. */
  function DaysBeforeMonth(y: int, m: int): (n: int)
    requires 1 <= m <= 13
    ensures 0 <= n <= 31 * (m - 1)
  {
    if m == 1 then 0 else DaysBeforeMonth(y, m - 1) + DaysInMonth(y, m - 1)
  }

  lemma MonthsFillYear(y: int)
    ensures DaysBeforeMonth(y, 13) == YearLength(y)
  {
    var feb := DaysInMonth(y, 2);
    assert DaysBeforeMonth(y, 3) == 31 + feb;
    assert DaysBeforeMonth(y, 5) == 92 + feb;
    assert DaysBeforeMonth(y, 7) == 153 + feb;
    assert DaysBeforeMonth(y, 9) == 215 + feb;
    assert DaysBeforeMonth(y, 11) == 276 + feb;
    assert DaysBeforeMonth(y, 13) == 337 + feb;
  }

  lemma {:induction false} DaysBeforeMonthMonotone(y: int, a: int, b: int)
    requires 1 <= a < b <= 13
    ensures DaysBeforeMonth(y, a) + DaysInMonth(y, a) <= DaysBeforeMonth(y, b)
    decreases b - a
  {
    if a + 1 < b {
      DaysBeforeMonthMonotone(y, a + 1, b);
    }
  }

  /** A calendar date; `month` runs 1..12 and `day` from 1. */
  datatype Date = Date(year: int, month: int, day: int)

  predicate ValidDate(d: Date) {
    1 <= d.month <= 12 && 1 <= d.day <= DaysInMonth(d.year, d.month)
  }

  /** The days from 1 January 1970 to `d` in the proleptic Gregorian
      calendar. This is `Date.UTC(y, m - 1, d)` in days for a year outside
      0..99; `Date.UTC` reads a year from 0 to 99 as 1900 + y, and this
      function does not. */
  function DayNumber(d: Date): (n: int)
    requires ValidDate(d)
    ensures YearStart(d.year) <= n < YearStart(d.year) + YearLength(d.year)
  {
    DaysBeforeMonthMonotone(d.year, d.month, 13);
    MonthsFillYear(d.year);
    YearStart(d.year) + DaysBeforeMonth(d.year, d.month) + d.day - 1
  }

  /** Walking up from year `y` to the year holding day `n`. */
  function YearUp(n: int, y: int): (r: int)
    requires YearStart(y) <= n
    ensures YearStart(r) <= n < YearStart(r) + YearLength(r)
    decreases n - YearStart(y)
  {
    YearStartNext(y);
    if n < YearStart(y) + YearLength(y) then y else YearUp(n, y + 1)
  }

  /** Walking down from year `y` to the year holding day `n`. */
  function YearDown(n: int, y: int): (r: int)
    requires n < YearStart(y) + YearLength(y)
    ensures YearStart(r) <= n < YearStart(r) + YearLength(r)
    decreases YearStart(y) - n
  {
    YearStartNext(y - 1);
    if YearStart(y) <= n then y else YearDown(n, y - 1)
  }

  /** `getUTCFullYear()` of day `n`. */
  function YearOf(n: int): (y: int)
    ensures YearStart(y) <= n < YearStart(y) + YearLength(y)
  {
    if n >= 0 then YearUp(n, 1970) else YearDown(n, 1969)
  }

  /** Only one year holds a given day. */
  lemma YearUnique(n: int, y: int)
    requires YearStart(y) <= n < YearStart(y) + YearLength(y)
    ensures YearOf(n) == y
  {
    var z := YearOf(n);
    if z < y {
      YearStartMonotone(z, y);
    } else if y < z {
      YearStartMonotone(y, z);
    }
  }

  /** Walking up from month `m` to the month holding day `doy` of the year. */
  function MonthOf(y: int, doy: int, m: int): (r: int)
    requires 1 <= m <= 12 && DaysBeforeMonth(y, m) <= doy < YearLength(y)
    ensures m <= r <= 12
    ensures DaysBeforeMonth(y, r) <= doy < DaysBeforeMonth(y, r) + DaysInMonth(y, r)
    decreases 12 - m
  {
    MonthsFillYear(y);
    if doy < DaysBeforeMonth(y, m) + DaysInMonth(y, m) then m else MonthOf(y, doy, m + 1)
  }

  /** The calendar date of day `n`: the inverse of `DayNumber`. */
  function FromDayNumber(n: int): (d: Date)
    ensures ValidDate(d) && DayNumber(d) == n
  {
    var y := YearOf(n);
    var doy := n - YearStart(y);
    var m := MonthOf(y, doy, 1);
    Date(y, m, doy - DaysBeforeMonth(y, m) + 1)
  }

  /** Day numbers order dates chronologically. */
  lemma DayNumberOrder(a: Date, b: Date)
    requires ValidDate(a) && ValidDate(b)
    requires a.year < b.year || (a.year == b.year && a.month < b.month)
             || (a.year == b.year && a.month == b.month && a.day < b.day)
    ensures DayNumber(a) < DayNumber(b)
  {
    if a.year < b.year {
      YearStartMonotone(a.year, b.year);
    } else if a.month < b.month {
      DaysBeforeMonthMonotone(a.year, a.month, b.month);
    }
  }

  /** Day numbers identify dates. */
  lemma DayNumberInjective(a: Date, b: Date)
    requires ValidDate(a) && ValidDate(b) && DayNumber(a) == DayNumber(b)
    ensures a == b
  {
    if a.year < b.year || (a.year == b.year && a.month < b.month)
       || (a.year == b.year && a.month == b.month && a.day < b.day) {
      DayNumberOrder(a, b);
    } else if b.year < a.year || (a.year == b.year && b.month < a.month)
       || (a.year == b.year && a.month == b.month && b.day < a.day) {
      DayNumberOrder(b, a);
    }
  }

  /** Converting a valid date to its day number and back gives the date. */
  lemma FromDayNumberOfDayNumber(d: Date)
    requires ValidDate(d)
    ensures FromDayNumber(DayNumber(d)) == d
  {
    DayNumberInjective(FromDayNumber(DayNumber(d)), d);
  }

  /** The date `k` days (at most 28) after `d`: later in the same month, or
      early in the following month, which after December is January of the
      next year. */
  function Later(d: Date, k: nat): (e: Date)
    requires ValidDate(d) && k <= 28
    ensures ValidDate(e)
  {
    if d.day + k <= DaysInMonth(d.year, d.month) then Date(d.year, d.month, d.day + k)
    else if d.month == 12 then Date(d.year + 1, 1, d.day + k - 31)
    else Date(d.year, d.month + 1, d.day + k - DaysInMonth(d.year, d.month))
  }

  lemma LaterNumber(d: Date, k: nat)
    requires ValidDate(d) && k <= 28
    ensures DayNumber(Later(d, k)) == DayNumber(d) + k
  {
    if d.day + k > DaysInMonth(d.year, d.month) && d.month == 12 {
      MonthsFillYear(d.year);
      YearStartNext(d.year);
    }
  }

  /** Counting `k` days on from `d` by the calendar agrees with the day numbers. */
  lemma DaysLater(d: Date, k: nat)
    requires ValidDate(d) && k <= 28
    ensures FromDayNumber(DayNumber(d) + k) == Later(d, k)
  {
    LaterNumber(d, k);
    FromDayNumberOfDayNumber(Later(d, k));
  }

  /** `getUTCDay()`: 0 for Sunday .. 6 for Saturday; day 0 was a Thursday. */
  function WeekDay(n: int): (w: int)
    ensures 0 <= w < 7
  {
    (n + 4) % 7
  }

  /** The ISO weekday, 1 for Monday .. 7 for Sunday (`getUTCDay() || 7`). */
  function IsoWeekday(n: int): (w: int)
    ensures 1 <= w <= 7
    ensures w % 7 == WeekDay(n)
  {
    if WeekDay(n) == 0 then 7 else WeekDay(n)
  }

  /** Month names as the `es-ES` locale writes them in a `{ month: 'long' }` date. */
  const MonthNames: seq<string> := ["enero", "febrero", "marzo", "abril", "mayo", "junio",
    "julio", "agosto", "septiembre", "octubre", "noviembre", "diciembre"]

  function MonthName(m: int): (s: string)
    requires 1 <= m <= 12
    ensures |s| >= 4
  {
    MonthNames[m - 1]
  }

  /** Different months have different names. */
  lemma MonthNameInjective(a: int, b: int)
    requires 1 <= a <= 12 && 1 <= b <= 12 && MonthName(a) == MonthName(b)
    ensures a == b
  {
    assert MonthName(a)[..3] == MonthName(b)[..3];
  }
}
