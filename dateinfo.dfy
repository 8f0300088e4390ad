/** Decoding a bulletin identifier `YYYY-n_start_end` (`parseIdToDateInfo`):
    the ISO week number `n`, the start and end dates written `YYYY-MM-DD`,
    and the Spanish label shown on the card. */
module DateInfo {
  import opened Text
  import opened Civil

  /** What the decoder learns from an identifier. */
  datatype DateInfo = DateInfo(startDate: Option<Date>, endDate: Option<Date>,
                               displayDate: string, weekNumber: Option<nat>)

  /** `new Date(s)` for a date written `YYYY-MM-DD`; any other text is an
      invalid date. A day from 01 to 31 that the month does not have is
      rejected here as well, where some engines roll it over into the next
      month. */
  function ParseDate(s: string): (r: Option<Date>)
    ensures r.Some? ==> ValidDate(r.value) && 0 <= r.value.year <= 9999
  {
    if |s| == 10 && AllDigits(s[..4]) && s[4] == '-' && AllDigits(s[5..7]) && s[7] == '-'
       && AllDigits(s[8..])
    then
      var d := Date(DigitsValue(s[..4]), DigitsValue(s[5..7]), DigitsValue(s[8..]));
      DigitsBelow(s[..4]);
      if ValidDate(d) then Some(d) else None
    else None
  }

  lemma {:induction false} DigitsBelow(s: string)
    requires AllDigits(s)
    ensures DigitsValue(s) < Pow10(|s|)
  {
    if s != [] {
      DigitsBelow(s[..|s| - 1]);
    }
  }

  /** A date written `YYYY-MM-DD`, the form `ParseDate` reads. */
  function FormatDate(d: Date): string
    requires ValidDate(d) && 0 <= d.year <= 9999
  {
    PadNat(d.year, 4) + "-" + PadNat(d.month, 2) + "-" + PadNat(d.day, 2)
  }

  /** Reading a written date gives the date back. */
  lemma ParseFormatDate(d: Date)
    requires ValidDate(d) && 0 <= d.year <= 9999
    ensures ParseDate(FormatDate(d)) == Some(d)
  {
    PadNatLength(d.year, 4);
    PadNatLength(d.month, 2);
    PadNatLength(d.day, 2);
    DateParts(PadNat(d.year, 4), PadNat(d.month, 2), PadNat(d.day, 2));
  }

  /** Where the three fields sit in `YYYY-MM-DD`. */
  lemma DateParts(y: string, m: string, dd: string)
    requires |y| == 4 && |m| == 2 && |dd| == 2
    ensures var s := y + "-" + m + "-" + dd;
            |s| == 10 && s[..4] == y && s[4] == '-' && s[5..7] == m && s[7] == '-' && s[8..] == dd
  {
    var s := y + "-" + m + "-" + dd;
    Around(y, '-', m + "-" + dd);
    assert s == y + ['-'] + (m + "-" + dd);
    var t := s[5..];
    Around(m, '-', dd);
    assert t == m + ['-'] + dd;
    assert s[5..7] == t[..2] && s[7] == t[2] && s[8..] == t[3..];
  }

  /** The week part `^(\d{4})-(\d+)$` of the identifier's first segment,
      read with `parseInt(…, 10)`. */
  function MatchYearWeek(p: string): (r: Option<nat>)
    ensures r.Some? <==> |p| >= 6 && AllDigits(p[..4]) && p[4] == '-' && AllDigits(p[5..])
  {
    if |p| >= 6 && AllDigits(p[..4]) && p[4] == '-' && AllDigits(p[5..])
    then Some(DigitsValue(p[5..]))
    else None
  }

  /** The date range of the label: "del d1 al d2 de m2 de y" when the
      `es-ES` month names of the two dates are equal, otherwise
      "del d1 de m1 al d2 de m2 de y"; `y` is the end date's year. */
  function RangeLabel(s: Date, e: Date): string
    requires ValidDate(s) && ValidDate(e) && 0 <= e.year
  {
    var sm := MonthName(s.month);
    var em := MonthName(e.month);
    if sm == em then
      "del " + NatToString(s.day) + " al " + NatToString(e.day) + " de " + em
      + " de " + NatToString(e.year)
    else
      "del " + NatToString(s.day) + " de " + sm + " al " + NatToString(e.day) + " de " + em
      + " de " + NatToString(e.year)
  }

  /** The card label: "Semana n: " in front of the range when the week number
      is present and not 0. */
  function Label(week: Option<nat>, s: Date, e: Date): string
    requires ValidDate(s) && ValidDate(e) && 0 <= e.year
  {
    if week.Some? && week.value != 0 then "Semana " + NatToString(week.value) + ": " + RangeLabel(s, e)
    else RangeLabel(s, e)
  }

  /** `parseIdToDateInfo(id)`. */
  function ParseIdToDateInfo(id: string): (r: DateInfo)
    ensures r.startDate.Some? <==> r.endDate.Some?
    ensures r.startDate.Some? ==> ValidDate(r.startDate.value) && ValidDate(r.endDate.value)
                                  && 0 <= r.startDate.value.year <= 9999
                                  && 0 <= r.endDate.value.year <= 9999
  {
    if id == [] then DateInfo(None, None, "Fecha no disponible", None)
    else
      var parts := Split(id, '_');
      if |parts| < 3 then DateInfo(None, None, id, None)
      else
        var week := MatchYearWeek(parts[0]);
        var start := ParseDate(parts[1]);
        var end := ParseDate(parts[2]);
        if start.None? || end.None? then DateInfo(None, None, "Fecha inv\U{E1}lida", week)
        else DateInfo(start, end, Label(week, start.value, end.value), week)
  }

  /** An identifier with fewer than two underscores is shown as it is, with
      no dates and no week. */
  lemma FewSegments(id: string)
    requires id != [] && Count(id, '_') < 2
    ensures ParseIdToDateInfo(id) == DateInfo(None, None, id, None)
  {
    SplitCount(id, '_');
  }

  /** An identifier with three or more segments and a start or end date that
      does not read as a date: no dates, "Fecha inválida", and the week
      number still decoded from the first segment. */
  lemma InvalidDates(id: string)
    requires |Split(id, '_')| >= 3
    requires ParseDate(Split(id, '_')[1]).None? || ParseDate(Split(id, '_')[2]).None?
    ensures ParseIdToDateInfo(id)
         == DateInfo(None, None, "Fecha inv\U{E1}lida", MatchYearWeek(Split(id, '_')[0]))
  {
  }

  /** Month names are compared as text, which is the same as comparing the
      month numbers (and ignores the year). */
  lemma RangeLabelShape(s: Date, e: Date)
    requires ValidDate(s) && ValidDate(e) && 0 <= e.year
    ensures RangeLabel(s, e)
         == if s.month == e.month then
              "del " + NatToString(s.day) + " al " + NatToString(e.day) + " de "
              + MonthName(e.month) + " de " + NatToString(e.year)
            else
              "del " + NatToString(s.day) + " de " + MonthName(s.month) + " al "
              + NatToString(e.day) + " de " + MonthName(e.month) + " de " + NatToString(e.year)
  {
    if MonthName(s.month) == MonthName(e.month) {
      MonthNameInjective(s.month, e.month);
    }
  }

  /** The label starts with the week prefix exactly when the week number is
      present and not 0; without it the label is the range alone. */
  lemma LabelPrefix(week: Option<nat>, s: Date, e: Date)
    requires ValidDate(s) && ValidDate(e) && 0 <= e.year
    ensures var l := Label(week, s, e);
            (week.Some? && week.value != 0) == (|l| > 0 && l[0] == 'S')
    ensures !(week.Some? && week.value != 0) ==> Label(week, s, e) == RangeLabel(s, e)
  {
    var r := RangeLabel(s, e);
    assert r[0] == 'd';
  }

  /** The identifier the feed writes for a bulletin of week `week` of `year`
      running from `s` to `e`. */
  function MakeId(year: nat, week: nat, s: Date, e: Date): string
    requires year <= 9999
    requires ValidDate(s) && 0 <= s.year <= 9999 && ValidDate(e) && 0 <= e.year <= 9999
  {
    PadNat(year, 4) + "-" + NatToString(week) + "_" + FormatDate(s) + "_" + FormatDate(e)
  }

  /** Decoding an identifier written by `MakeId` recovers both dates and the
      week number, and labels the card with them. */
  lemma ParseMakeId(year: nat, week: nat, s: Date, e: Date)
    requires year <= 9999
    requires ValidDate(s) && 0 <= s.year <= 9999 && ValidDate(e) && 0 <= e.year <= 9999
    ensures ParseIdToDateInfo(MakeId(year, week, s, e))
         == DateInfo(Some(s), Some(e), Label(Some(week), s, e), Some(week))
  {
    var p0 := PadNat(year, 4) + "-" + NatToString(week);
    MakeIdSplit(year, week, s, e);
    ParseFormatDate(s);
    ParseFormatDate(e);
    WeekPart(year, week, p0);
  }

  /** The identifier's three segments. */
  lemma MakeIdSplit(year: nat, week: nat, s: Date, e: Date)
    requires year <= 9999
    requires ValidDate(s) && 0 <= s.year <= 9999 && ValidDate(e) && 0 <= e.year <= 9999
    ensures Split(MakeId(year, week, s, e), '_')
         == [PadNat(year, 4) + "-" + NatToString(week), FormatDate(s), FormatDate(e)]
  {
    var p0 := PadNat(year, 4) + "-" + NatToString(week);
    var a := FormatDate(s);
    var b := FormatDate(e);
    IdParts(p0, a, b, MakeId(year, week, s, e));
    NoUnderscore(PadNat(year, 4), NatToString(week));
    DateNoUnderscore(s);
    DateNoUnderscore(e);
    SplitJoin([p0, a, b], '_');
  }

  lemma IdParts(p0: string, a: string, b: string, id: string)
    requires id == p0 + "_" + a + "_" + b
    ensures Join([p0, a, b], '_') == id
  {
    assert [p0, a, b][1..] == [a, b];
    assert [a, b][1..] == [b];
    assert Join([b], '_') == b;
    assert Join([a, b], '_') == a + "_" + b;
    assert Join([p0, a, b], '_') == p0 + "_" + (a + "_" + b);
    Associative(p0 + "_", a + "_", b);
    Associative(p0 + "_", a, "_");
  }

  lemma DigitsNoUnderscore(s: string)
    requires AllDigits(s)
    ensures '_' !in s
  {
    assert forall k | 0 <= k < |s| :: s[k] != '_';
  }

  lemma NoUnderscore(y: string, w: string)
    requires AllDigits(y) && AllDigits(w)
    ensures '_' !in y + "-" + w
  {
    DigitsNoUnderscore(y);
    DigitsNoUnderscore(w);
  }

  lemma DateNoUnderscore(d: Date)
    requires ValidDate(d) && 0 <= d.year <= 9999
    ensures '_' !in FormatDate(d)
  {
    DigitsNoUnderscore(PadNat(d.year, 4));
    DigitsNoUnderscore(PadNat(d.month, 2));
    DigitsNoUnderscore(PadNat(d.day, 2));
  }

  lemma WeekPart(year: nat, week: nat, p0: string)
    requires year <= 9999 && p0 == PadNat(year, 4) + "-" + NatToString(week)
    ensures MatchYearWeek(p0) == Some(week)
  {
    PadNatLength(year, 4);
    Around(PadNat(year, 4), '-', NatToString(week));
    assert p0 == PadNat(year, 4) + ['-'] + NatToString(week);
    DigitsValueOfNatToString(week);
  }
}
