/** ISO 8601 week arithmetic over day numbers (ISO 8601:2004, section
    4.1.4): weeks run Monday to Sunday and week 1 of a year is the week that
    holds the year's first Thursday. */
module IsoWeek {
  import opened Text
  import opened Civil

  /** The Thursday of the Monday-to-Sunday week holding day `n`. */
  function ThursdayOf(n: int): (t: int)
    ensures n - 3 <= t <= n + 3 && IsoWeekday(t) == 4
  {
    n + 4 - IsoWeekday(n)
  }

  /** The ISO week-numbering year of day `n`: the calendar year of its Thursday. */
  function WeekYear(n: int): int {
    YearOf(ThursdayOf(n))
  }

  /** `getWeekNumber(d)`: the ordinal of the Thursday's week within its
      year, `Math.ceil((days since January 1 + 1) / 7)`. */
  function WeekNumber(n: int): (w: int)
    ensures 1 <= w <= 53
  {
    var t := ThursdayOf(n);
    var x := t - YearStart(YearOf(t)) + 1;
    (x + 6) / 7
  }

  /** The first Thursday on or after January 1 of `y`, found as
      `1 + (4 - getDay() + 7) % 7` days into January. */
  function FirstThursday(y: int): (f: int)
    ensures YearStart(y) <= f <= YearStart(y) + 6 && IsoWeekday(f) == 4
  {
    var j := YearStart(y);
    j + (4 - WeekDay(j) + 7) % 7
  }

  /** The Monday that `getWeekDates(w, y)` returns as the start of the week:
      three days before the first Thursday, advanced by `7 * (w - 1)` days. */
  function WeekMonday(w: int, y: int): (m: int)
    ensures IsoWeekday(m) == 1
  {
    FirstThursday(y) - 3 + 7 * (w - 1)
  }

  /** `getWeekDates(weekNumber, year)`: the first day of the week is moved to
      the first Thursday, back to the Monday and forward by whole weeks; the
      last day is six days after the first. */
  method GetWeekDates(weekNumber: int, year: int) returns (start: Date, end: Date)
    ensures ValidDate(start) && ValidDate(end)
    ensures DayNumber(start) == WeekMonday(weekNumber, year)
    ensures DayNumber(end) == DayNumber(start) + 6
  {
    var firstDay := YearStart(year);
    var firstThursday := firstDay + (4 - WeekDay(firstDay) + 7) % 7;
    var firstWeekStart := firstThursday - 3;
    var weekStart := firstWeekStart + (weekNumber - 1) * 7;
    var weekEnd := weekStart + 6;
    start := FromDayNumber(weekStart);
    end := FromDayNumber(weekEnd);
  }

  /** Days `m .. m + 6` from a Monday are Monday .. Sunday. */
  lemma WeekdaysFromMonday(m: int, k: int)
    requires IsoWeekday(m) == 1 && 0 <= k < 7
    ensures IsoWeekday(m + k) == k + 1
  {
  }

  /** Two days with the same weekday are a whole number of weeks apart. */
  lemma SameWeekday(a: int, b: int)
    requires WeekDay(a) == WeekDay(b)
    ensures (a - b) % 7 == 0
  {
  }

  /** Every day lies in the week that `WeekNumber` and `WeekYear` name: it
      is between that week's Monday and the Sunday six days later. */
  lemma WeekContains(n: int)
    ensures WeekMonday(WeekNumber(n), WeekYear(n)) == n + 1 - IsoWeekday(n)
    ensures WeekMonday(WeekNumber(n), WeekYear(n)) <= n <= WeekMonday(WeekNumber(n), WeekYear(n)) + 6
  {
    var t := ThursdayOf(n);
    var y := YearOf(t);
    var j := YearStart(y);
    var f := FirstThursday(y);
    SameWeekday(t, f);
    var k := (t - f) / 7;
    assert t == f + 7 * k;
    assert k >= 0;
    assert WeekNumber(n) == (t - j + 7) / 7;
    assert (t - j + 7) / 7 == k + 1;
  }

  /** The days of one week all have the same week number and year. */
  lemma ThursdayOfWeekDay(m: int, k: int)
    requires IsoWeekday(m) == 1 && 0 <= k < 7
    ensures ThursdayOf(m + k) == m + 3
  {
    WeekdaysFromMonday(m, k);
  }

  /** For weeks 1 .. 52, which every year has, a day has week number `w` in
      week-numbering year `y` exactly when it lies in the seven days that
      `getWeekDates(w, y)` spans. */
  lemma WeekRangeIff(n: int, w: int, y: int)
    requires 1 <= w <= 52
    ensures (WeekNumber(n) == w && WeekYear(n) == y)
            <==> WeekMonday(w, y) <= n <= WeekMonday(w, y) + 6
  {
    var m := WeekMonday(w, y);
    if m <= n <= m + 6 {
      ThursdayOfWeekDay(m, n - m);
      var t := m + 3;
      assert t == FirstThursday(y) + 7 * (w - 1);
      YearUnique(t, y);
      var j := YearStart(y);
      assert WeekNumber(n) == (t - j + 7) / 7;
    } else if WeekNumber(n) == w && WeekYear(n) == y {
      WeekContains(n);
    }
  }

  /** `getWeekNumber` of the Monday `getWeekDates(w, y)` starts with is `w`
      again, for the weeks 1 .. 52 that every year has. */
  lemma WeekNumberOfMonday(w: int, y: int)
    requires 1 <= w <= 52
    ensures WeekNumber(WeekMonday(w, y)) == w && WeekYear(WeekMonday(w, y)) == y
  {
    WeekRangeIff(WeekMonday(w, y), w, y);
  }

  /** The week's last date is its first date six days on by the calendar:
      later in the same month, or early in the next one. */
  lemma WeekSpan(w: int, y: int)
    ensures FromDayNumber(WeekMonday(w, y) + 6) == Later(FromDayNumber(WeekMonday(w, y)), 6)
  {
    DaysLater(FromDayNumber(WeekMonday(w, y)), 6);
  }

  /** The range part of a week label: "del d1 al d2 de m" when both days
      fall in the same month, "del d1 de m1 al d2 de m2" otherwise. */
  function RangeText(d1: nat, m1: int, d2: nat, m2: int): string
    requires 1 <= m1 <= 12 && 1 <= m2 <= 12
  {
    if m1 == m2 then
      "del " + NatToString(d1) + " al " + NatToString(d2) + " de " + MonthName(m1)
    else
      "del " + NatToString(d1) + " de " + MonthName(m1)
      + " al " + NatToString(d2) + " de " + MonthName(m2)
  }

  /** "Semana w (range)" for a week's first and last dates. */
  function WeekLabel(w: nat, s: Date, e: Date): string
    requires ValidDate(s) && ValidDate(e)
  {
    "Semana " + NatToString(w) + " (" + RangeText(s.day, s.month, e.day, e.month) + ")"
  }

  /** `formatWeekDisplay(w, y)`: the label of the dates `getWeekDates(w, y)`
      returns. */
  function FormatWeekDisplay(w: nat, y: int): string {
    WeekLabel(w, FromDayNumber(WeekMonday(w, y)), FromDayNumber(WeekMonday(w, y) + 6))
  }

  /** The label names a seven-day span starting on the week's Monday. */
  lemma FormatWeekDisplaySpan(w: nat, y: int)
    ensures FormatWeekDisplay(w, y) == WeekLabel(w, FromDayNumber(WeekMonday(w, y)),
                                                 Later(FromDayNumber(WeekMonday(w, y)), 6))
  {
    WeekSpan(w, y);
  }

  /** The label of a span of seven days from `s`: one month name when the
      span stays in the month, the two month names otherwise, the second
      being the month after the first (January after December). */
  lemma WeekLabelOfSpan(w: nat, s: Date)
    requires ValidDate(s)
    ensures var dim := DaysInMonth(s.year, s.month);
            if s.day + 6 <= dim
            then WeekLabel(w, s, Later(s, 6)) == WeekLabel(w, s, Date(s.year, s.month, s.day + 6))
            else Later(s, 6).month == s.month % 12 + 1 && Later(s, 6).day == s.day + 6 - dim
                 && WeekLabel(w, s, Later(s, 6))
                    == "Semana " + NatToString(w) + " ("
                       + RangeText(s.day, s.month, s.day + 6 - dim, s.month % 12 + 1) + ")"
  {
    var e := Later(s, 6);
    var dim := DaysInMonth(s.year, s.month);
    if s.day + 6 <= dim {
      assert e.day == s.day + 6 && e.month == s.month;
    } else {
      assert e.day == s.day + 6 - dim && e.month == s.month % 12 + 1;
    }
  }
}
