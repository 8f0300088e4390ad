/** The card filter of `applyFilters`: a record is shown when it has a start
    date, falls in the selected month and ISO week, carries every active
    keyword and contains the search text, all compared after
    `normalizeText`. Also the month and week options offered by
    `populateFilterOptions`. */
module Filter {
  import opened Text
  import opened Civil
  import opened Normalize
  import opened IsoWeek
  import opened DateInfo
  import opened Records

  /** `xs.filter(p)`. */
  function Select<T>(p: T -> bool, xs: seq<T>): (r: seq<T>)
    ensures |r| <= |xs|
  {
    if xs == [] then [] else (if p(xs[0]) then [xs[0]] else []) + Select(p, xs[1..])
  }

  /** `a` is `b` with some elements left out and the others in their order. */
  ghost predicate Subsequence<T>(a: seq<T>, b: seq<T>)
    decreases |b|
  {
    a == [] || (b != [] && (Subsequence(a, b[1..]) || (a[0] == b[0] && Subsequence(a[1..], b[1..]))))
  }

  /** Filtering keeps some of the elements, in their order. */
  lemma {:induction false} SelectSubsequence<T>(p: T -> bool, xs: seq<T>)
    ensures Subsequence(Select(p, xs), xs)
  {
    if xs != [] {
      SelectSubsequence(p, xs[1..]);
      SelectCons(p, xs);
    }
  }

  /** One step of the filter. */
  lemma SelectCons<T>(p: T -> bool, xs: seq<T>)
    requires xs != []
    ensures p(xs[0]) ==> Select(p, xs) != [] && Select(p, xs)[0] == xs[0]
                         && Select(p, xs)[1..] == Select(p, xs[1..])
    ensures !p(xs[0]) ==> Select(p, xs) == Select(p, xs[1..])
  {
    DropPrefix([xs[0]], Select(p, xs[1..]));
    AppendEmpty(Select(p, xs[1..]));
  }

  /** The elements kept are exactly those that satisfy `p`. */
  lemma {:induction false} SelectMembers<T>(p: T -> bool, xs: seq<T>, x: T)
    ensures x in Select(p, xs) <==> x in xs && p(x)
  {
    if xs != [] {
      SelectMembers(p, xs[1..], x);
      SeqCons(xs);
    }
  }

  lemma {:induction false} SelectAppend<T>(p: T -> bool, a: seq<T>, b: seq<T>)
    ensures Select(p, a + b) == Select(p, a) + Select(p, b)
  {
    if a == [] {
      AppendEmpty(b);
      AppendEmpty(Select(p, b));
    } else {
      DropPrefix([a[0]], a[1..] + b);
      SeqCons(a);
      Associative([a[0]], a[1..], b);
      SelectAppend(p, a[1..], b);
      Associative(if p(a[0]) then [a[0]] else [], Select(p, a[1..]), Select(p, b));
    }
  }

  /** Two tests that agree on the elements give the same result. */
  lemma {:induction false} SelectSame<T>(p: T -> bool, q: T -> bool, xs: seq<T>)
    requires forall k | 0 <= k < |xs| :: p(xs[k]) == q(xs[k])
    ensures Select(p, xs) == Select(q, xs)
  {
    if xs != [] {
      SelectSame(p, q, xs[1..]);
    }
  }

  /** Filtering by a conjunction is filtering twice. */
  lemma {:induction false} SelectAnd<T>(pq: T -> bool, p: T -> bool, q: T -> bool, xs: seq<T>)
    requires forall k | 0 <= k < |xs| :: pq(xs[k]) == (p(xs[k]) && q(xs[k]))
    ensures Select(pq, xs) == Select(q, Select(p, xs))
  {
    if xs != [] {
      SelectAnd(pq, p, q, xs[1..]);
      SelectCons(pq, xs);
      SelectCons(p, xs);
      if p(xs[0]) {
        SelectCons(q, Select(p, xs));
      }
    }
  }

  /** `item.dateInfo.startDate` is present and a valid date. */
  predicate Dated(b: Bulletin) {
    b.dateInfo.startDate.Some? && ValidDate(b.dateInfo.startDate.value)
  }

  /** `date.getMonth()`: 0 for January .. 11 for December. */
  function Month0(b: Bulletin): (m: nat)
    requires Dated(b)
    ensures m < 12
  {
    b.dateInfo.startDate.value.month - 1
  }

  /** `getWeekNumber(date)`. */
  function Week(b: Bulletin): (w: nat)
    requires Dated(b)
    ensures 1 <= w <= 53
  {
    WeekNumber(DayNumber(b.dateInfo.startDate.value))
  }

  /** `selectedMonth === '' || date.getMonth().toString() === selectedMonth`. */
  predicate MonthMatch(b: Bulletin, selected: string)
    requires Dated(b)
  {
    selected == "" || NatToString(Month0(b)) == selected
  }

  /** `selectedWeek === '' || getWeekNumber(date).toString() === selectedWeek`. */
  predicate WeekMatch(b: Bulletin, selected: string)
    requires Dated(b)
  {
    selected == "" || NatToString(Week(b)) == selected
  }

  /** `item.keywords.some(ik => normalizeText(ik) === normalizeText(ak))`. */
  predicate HasKeyword(b: Bulletin, ak: string) {
    exists i | 0 <= i < |b.keywords| :: NormalizeText(b.keywords[i]) == NormalizeText(ak)
  }

  /** Every active keyword is among the record's keywords. */
  predicate KeywordMatch(b: Bulletin, active: seq<string>) {
    forall j | 0 <= j < |active| :: HasKeyword(b, active[j])
  }

  /** The already normalized term is empty or occurs in the normalized title,
      summary, body, FAQ or one of the keywords. */
  predicate SearchMatch(b: Bulletin, term: string) {
    term == ""
    || Contains(NormalizeText(b.title), term)
    || Contains(NormalizeText(b.summary), term)
    || Contains(NormalizeText(b.body), term)
    || Contains(NormalizeText(b.faq), term)
    || exists i | 0 <= i < |b.keywords| :: Contains(NormalizeText(b.keywords[i]), term)
  }

  /** The test `allNewsletters.filter` applies to each record, for the search
      box text `search`, the month and week selections (option values, `''`
      for all) and the active keywords. */
  predicate Matches(b: Bulletin, search: string, month: string, week: string, active: seq<string>) {
    Dated(b) && MonthMatch(b, month) && WeekMatch(b, week) && KeywordMatch(b, active)
    && SearchMatch(b, NormalizeText(search))
  }

  /** The records `applyFilters` renders. */
  function FilterRecords(records: seq<Bulletin>, search: string, month: string, week: string,
                         active: seq<string>): seq<Bulletin>
  {
    Select(b => Matches(b, search, month, week, active), records)
  }

  /** The output is a subsequence of the input, and filtering a concatenation
      filters each part: the order of the records is kept. */
  lemma FilterOrder(a: seq<Bulletin>, c: seq<Bulletin>, search: string, month: string, week: string,
                    active: seq<string>)
    ensures Subsequence(FilterRecords(a, search, month, week, active), a)
    ensures FilterRecords(a + c, search, month, week, active)
         == FilterRecords(a, search, month, week, active) + FilterRecords(c, search, month, week, active)
  {
    SelectSubsequence(b => Matches(b, search, month, week, active), a);
    SelectAppend(b => Matches(b, search, month, week, active), a, c);
  }

  /** A record is shown exactly when it is in the input and passes the test;
      in particular a record without a valid start date is never shown. */
  lemma FilterMembers(records: seq<Bulletin>, search: string, month: string, week: string,
                      active: seq<string>, b: Bulletin)
    ensures b in FilterRecords(records, search, month, week, active)
            <==> b in records && Matches(b, search, month, week, active)
    ensures b in FilterRecords(records, search, month, week, active) ==> Dated(b)
  {
    SelectMembers(b => Matches(b, search, month, week, active), records, b);
  }

  /** With an empty search box, both selections at "all" and no active
      keyword, every dated record is shown. */
  lemma NoCriteria(records: seq<Bulletin>)
    ensures FilterRecords(records, "", "", "", []) == Select(Dated, records)
  {
    assert NormalizeText("") == "";
    SelectSame(b => Matches(b, "", "", "", []), Dated, records);
  }

  /** Activating one more keyword filters the shown records once more by that
      keyword: it never brings a record back. */
  lemma AddKeyword(records: seq<Bulletin>, search: string, month: string, week: string,
                   active: seq<string>, k: string)
    ensures FilterRecords(records, search, month, week, active + [k])
         == Select(b => HasKeyword(b, k), FilterRecords(records, search, month, week, active))
    ensures Subsequence(FilterRecords(records, search, month, week, active + [k]),
                        FilterRecords(records, search, month, week, active))
  {
    forall b: Bulletin
      ensures KeywordMatch(b, active + [k]) == (KeywordMatch(b, active) && HasKeyword(b, k))
    {
      KeywordsAppend(b, active, k);
    }
    SelectAnd(b => Matches(b, search, month, week, active + [k]),
              b => Matches(b, search, month, week, active),
              b => HasKeyword(b, k), records);
    SelectSubsequence(b => HasKeyword(b, k), FilterRecords(records, search, month, week, active));
  }

  lemma KeywordsAppend(b: Bulletin, active: seq<string>, k: string)
    ensures KeywordMatch(b, active + [k]) == (KeywordMatch(b, active) && HasKeyword(b, k))
  {
    var all := active + [k];
    assert all[|active|] == k;
    assert forall j | 0 <= j < |active| :: all[j] == active[j];
  }

  /** Only the normalized search text matters: case and accents typed in the
      search box do not change what is shown. */
  lemma SearchNormalized(records: seq<Bulletin>, s1: string, s2: string, month: string, week: string,
                         active: seq<string>)
    requires NormalizeText(s1) == NormalizeText(s2)
    ensures FilterRecords(records, s1, month, week, active) == FilterRecords(records, s2, month, week, active)
  {
    SelectSame(b => Matches(b, s1, month, week, active), b => Matches(b, s2, month, week, active), records);
  }

  /** Normalization keeps occurrences: text found in a field is found in the
      normalized field as the normalized text. */
  lemma ContainsNormalized(t: string, s: string)
    requires Contains(t, s)
    ensures Contains(NormalizeText(t), NormalizeText(s))
  {
    var i :| 0 <= i <= |t| - |s| && OccursAt(t, s, i);
    var a, c := t[..i], t[i + |s|..];
    assert t == a + s + c;
    NormalizeAppend(a + s, c);
    NormalizeAppend(a, s);
    var na, ns, nc := NormalizeText(a), NormalizeText(s), NormalizeText(c);
    Around3(na, ns, nc);
  }

  lemma Around3(a: string, b: string, c: string)
    ensures OccursAt(a + b + c, b, |a|)
  {
    assert (a + b + c)[|a|..|a| + |b|] == b;
  }

  /** A dated record whose title contains the search text is shown when no
      other criterion is set, whatever case and accents are typed. */
  lemma TitleFound(b: Bulletin, search: string)
    requires Dated(b) && Contains(b.title, search)
    ensures Matches(b, search, "", "", [])
  {
    ContainsNormalized(b.title, search);
  }

  /** Selecting the option value of month `m` keeps the records of that month. */
  lemma MonthSelection(b: Bulletin, m: nat)
    requires Dated(b)
    ensures MonthMatch(b, NatToString(m)) <==> Month0(b) == m
  {
    if MonthMatch(b, NatToString(m)) {
      NatToStringInjective(Month0(b), m);
    }
  }

  /** Selecting the option value of week `w` keeps the records of that ISO week. */
  lemma WeekSelection(b: Bulletin, w: nat)
    requires Dated(b)
    ensures WeekMatch(b, NatToString(w)) <==> Week(b) == w
  {
    if WeekMatch(b, NatToString(w)) {
      NatToStringInjective(Week(b), w);
    }
  }

  // ----- populateFilterOptions -----

  /** The months (`getMonth()`) of the dated records, as the loop collects them. */
  function MonthsOf(xs: seq<Bulletin>): set<nat> {
    if xs == [] then {}
    else
      var last := xs[|xs| - 1];
      MonthsOf(xs[..|xs| - 1]) + (if Dated(last) then {Month0(last)} else {})
  }

  /** The ISO week numbers of the dated records. */
  function WeeksOf(xs: seq<Bulletin>): set<nat> {
    if xs == [] then {}
    else
      var last := xs[|xs| - 1];
      WeeksOf(xs[..|xs| - 1]) + (if Dated(last) then {Week(last)} else {})
  }

  /** `currentYear` after the loop: the year of the first dated record, where
      a year 0 counts as not yet set (`!currentYear`); 0 when there is none. */
  function FirstYear(xs: seq<Bulletin>): int {
    if xs == [] then 0
    else
      var y := FirstYear(xs[..|xs| - 1]);
      var last := xs[|xs| - 1];
      if y != 0 then y else if Dated(last) then last.dateInfo.startDate.value.year else 0
  }

  lemma {:induction false} MonthsOfMembers(xs: seq<Bulletin>, m: nat)
    ensures m in MonthsOf(xs) <==> exists k | 0 <= k < |xs| :: Dated(xs[k]) && Month0(xs[k]) == m
  {
    if xs != [] {
      var init := xs[..|xs| - 1];
      MonthsOfMembers(init, m);
      assert forall k | 0 <= k < |init| :: init[k] == xs[k];
    }
  }

  lemma {:induction false} WeeksOfMembers(xs: seq<Bulletin>, w: nat)
    ensures w in WeeksOf(xs) <==> exists k | 0 <= k < |xs| :: Dated(xs[k]) && Week(xs[k]) == w
  {
    if xs != [] {
      var init := xs[..|xs| - 1];
      WeeksOfMembers(init, w);
      assert forall k | 0 <= k < |init| :: init[k] == xs[k];
    }
  }

  /** The year is that of the first dated record with a non-zero year; it is
      0 exactly when no dated record has a non-zero year. */
  lemma {:induction false} FirstYearIs(xs: seq<Bulletin>)
    ensures FirstYear(xs) == 0 <==>
            forall k | 0 <= k < |xs| :: Dated(xs[k]) ==> xs[k].dateInfo.startDate.value.year == 0
    ensures FirstYear(xs) != 0 ==>
            exists k | 0 <= k < |xs| :: Dated(xs[k]) && xs[k].dateInfo.startDate.value.year == FirstYear(xs)
              && forall j | 0 <= j < k :: Dated(xs[j]) ==> xs[j].dateInfo.startDate.value.year == 0
  {
    if xs != [] {
      var init := xs[..|xs| - 1];
      FirstYearIs(init);
      assert forall k | 0 <= k < |init| :: init[k] == xs[k];
      if FirstYear(init) != 0 {
        var k :| 0 <= k < |init| && Dated(init[k]) && init[k].dateInfo.startDate.value.year == FirstYear(init)
                 && forall j | 0 <= j < k :: Dated(init[j]) ==> init[j].dateInfo.startDate.value.year == 0;
        assert Dated(xs[k]);
      } else if FirstYear(xs) != 0 {
        assert Dated(xs[|xs| - 1]);
      }
    }
  }

  /** The elements of `s` in `lo .. hi - 1`, ascending. */
  function Ascending(s: set<nat>, lo: nat, hi: nat): (r: seq<nat>)
    ensures forall i, j | 0 <= i < j < |r| :: r[i] < r[j]
    ensures forall k | 0 <= k < |r| :: lo <= r[k] < hi
    ensures forall x :: x in r <==> x in s && lo <= x < hi
    decreases hi - lo
  {
    if lo >= hi then []
    else
      var rest := Ascending(s, lo + 1, hi);
      if lo in s then [lo] + rest else rest
  }

  /** An `<option>`: its value and its text. */
  datatype Choice = Choice(value: string, text: string)

  /** The option list `<option value="">all</option>` followed by one option
      per number, valued by the number in decimal and named by `name`. */
  function Options(all: string, ns: seq<nat>, name: nat -> string): (opts: seq<Choice>)
    ensures |opts| == |ns| + 1 && opts[0] == Choice("", all)
    ensures forall k | 0 <= k < |ns| :: opts[k + 1] == Choice(NatToString(ns[k]), name(ns[k]))
  {
    [Choice("", all)] + seq(|ns|, k requires 0 <= k < |ns| => Choice(NatToString(ns[k]), name(ns[k])))
  }

  /** Options for strictly increasing numbers have distinct values, none of
      them the empty value of the first option. */
  lemma OptionValuesDistinct(all: string, ns: seq<nat>, name: nat -> string)
    requires forall i, j | 0 <= i < j < |ns| :: ns[i] < ns[j]
    ensures forall i, j | 0 <= i < j < |Options(all, ns, name)| ::
              Options(all, ns, name)[i].value != Options(all, ns, name)[j].value
  {
    var opts := Options(all, ns, name);
    forall i, j | 0 <= i < j < |opts|
      ensures opts[i].value != opts[j].value
    {
      if i > 0 && opts[i].value == opts[j].value {
        NatToStringInjective(ns[i - 1], ns[j - 1]);
      }
    }
  }

  const MonthLabels: seq<string> := ["Enero", "Febrero", "Marzo", "Abril", "Mayo", "Junio", "Julio",
    "Agosto", "Septiembre", "Octubre", "Noviembre", "Diciembre"]

  /** `monthNames[m]`, which a template writes as "undefined" past December. */
  function MonthLabel(m: nat): string {
    if m < 12 then MonthLabels[m] else "undefined"
  }

  /** The months offered, ascending. */
  function MonthList(records: seq<Bulletin>): seq<nat> {
    Ascending(MonthsOf(records), 0, 12)
  }

  /** The weeks offered, ascending. */
  function WeekList(records: seq<Bulletin>): seq<nat> {
    Ascending(WeeksOf(records), 1, 54)
  }

  /** The year the week labels are computed in: `currentYear || now`. */
  function YearForWeeks(records: seq<Bulletin>, nowYear: int): int {
    if FirstYear(records) != 0 then FirstYear(records) else nowYear
  }

  /** `populateFilterOptions(newsletters)`: one pass over the records
      collecting months, weeks and the first year, then the option lists in
      ascending order; `nowYear` stands for `new Date().getFullYear()`. */
  method PopulateFilterOptions(newsletters: seq<Bulletin>, nowYear: int)
    returns (monthOptions: seq<Choice>, weekOptions: seq<Choice>)
    ensures monthOptions == Options("Todos los meses", MonthList(newsletters), MonthLabel)
    ensures weekOptions
         == Options("Todas las semanas", WeekList(newsletters), (w: nat) => FormatWeekDisplay(w, YearForWeeks(newsletters, nowYear)))
  {
    var months, weeks, currentYear := Collect(newsletters);
    monthOptions := Options("Todos los meses", Ascending(months, 0, 12), MonthLabel);
    var yearForWeeks := if currentYear != 0 then currentYear else nowYear;
    weekOptions := Options("Todas las semanas", Ascending(weeks, 1, 54), (w: nat) => FormatWeekDisplay(w, yearForWeeks));
  }

  /** The `forEach` of `populateFilterOptions`: the months and weeks of the
      dated records, and the year of the first of them. */
  method Collect(newsletters: seq<Bulletin>) returns (months: set<nat>, weeks: set<nat>, currentYear: int)
    ensures months == MonthsOf(newsletters) && weeks == WeeksOf(newsletters)
    ensures currentYear == FirstYear(newsletters)
  {
    months, weeks := {}, {};
    currentYear := 0;
    var i := 0;
    while i < |newsletters|
      invariant 0 <= i <= |newsletters|
      invariant months == MonthsOf(newsletters[..i])
      invariant weeks == WeeksOf(newsletters[..i])
      invariant currentYear == FirstYear(newsletters[..i])
    {
      var item := newsletters[i];
      assert newsletters[..i + 1][..i] == newsletters[..i];
      if Dated(item) {
        months := months + {Month0(item)};
        weeks := weeks + {Week(item)};
        if currentYear == 0 {
          currentYear := item.dateInfo.startDate.value.year;
        }
      }
      i := i + 1;
    }
    assert newsletters[..i] == newsletters;
  }

  /** A number of the list has an option after "all" valued by it. */
  lemma OfferedAt(all: string, ns: seq<nat>, name: nat -> string, x: nat)
    requires x in ns
    ensures exists j | 1 <= j < |Options(all, ns, name)| :: Options(all, ns, name)[j].value == NatToString(x)
  {
    var p :| 0 <= p < |ns| && ns[p] == x;
    assert Options(all, ns, name)[p + 1].value == NatToString(x);
  }

  /** The month options after "all" are distinct, each selects at least one
      dated record, and every dated record's month is offered. */
  lemma MonthOptionsSound(records: seq<Bulletin>, i: nat, b: Bulletin)
    requires 1 <= i <= |MonthList(records)|
    requires b in records && Dated(b)
    ensures var opts := Options("Todos los meses", MonthList(records), MonthLabel);
            (forall j, k | 0 <= j < k < |opts| :: opts[j].value != opts[k].value)
            && (exists r | r in records :: Dated(r) && MonthMatch(r, opts[i].value))
            && exists j | 1 <= j < |opts| :: opts[j].value == NatToString(Month0(b))
  {
    var ms := MonthList(records);
    OptionValuesDistinct("Todos los meses", ms, MonthLabel);
    MonthSelects(records, ms[i - 1]);
    MonthsOfMembers(records, Month0(b));
    var kb :| 0 <= kb < |records| && records[kb] == b;
    OfferedAt("Todos los meses", ms, MonthLabel, Month0(b));
  }

  lemma MonthSelects(records: seq<Bulletin>, m: nat)
    requires m in MonthList(records)
    ensures exists r | r in records :: Dated(r) && MonthMatch(r, NatToString(m))
  {
    MonthsOfMembers(records, m);
    var k :| 0 <= k < |records| && Dated(records[k]) && Month0(records[k]) == m;
    assert MonthMatch(records[k], NatToString(m));
  }

  /** The same for the week options, whatever year their labels use. */
  lemma WeekOptionsSound(records: seq<Bulletin>, name: nat -> string, i: nat, b: Bulletin)
    requires 1 <= i <= |WeekList(records)|
    requires b in records && Dated(b)
    ensures var opts := Options("Todas las semanas", WeekList(records), name);
            (forall j, k | 0 <= j < k < |opts| :: opts[j].value != opts[k].value)
            && (exists r | r in records :: Dated(r) && WeekMatch(r, opts[i].value))
            && exists j | 1 <= j < |opts| :: opts[j].value == NatToString(Week(b))
  {
    var ws := WeekList(records);
    OptionValuesDistinct("Todas las semanas", ws, name);
    WeekSelects(records, ws[i - 1]);
    WeeksOfMembers(records, Week(b));
    var kb :| 0 <= kb < |records| && records[kb] == b;
    OfferedAt("Todas las semanas", ws, name, Week(b));
  }

  lemma WeekSelects(records: seq<Bulletin>, w: nat)
    requires w in WeekList(records)
    ensures exists r | r in records :: Dated(r) && WeekMatch(r, NatToString(w))
  {
    WeeksOfMembers(records, w);
    var k :| 0 <= k < |records| && Dated(records[k]) && Week(records[k]) == w;
    assert WeekMatch(records[k], NatToString(w));
  }

  // ----- toggleKeywordFilter -----

  /** `ks` with its first `k` removed. */
  function RemoveFirst(ks: seq<string>, k: string): (r: seq<string>)
    ensures k in ks ==> |r| == |ks| - 1
  {
    if ks == [] then []
    else if ks[0] == k then ks[1..]
    else [ks[0]] + RemoveFirst(ks[1..], k)
  }

  /** `activeKeywords` after toggling `k`: the first occurrence removed when
      present, `k` appended otherwise. */
  function Toggled(ks: seq<string>, k: string): seq<string> {
    if k in ks then RemoveFirst(ks, k) else ks + [k]
  }

  /** `ks` with every `k` removed, the others in order. */
  function Without(ks: seq<string>, k: string): seq<string> {
    if ks == [] then [] else (if ks[0] == k then [] else [ks[0]]) + Without(ks[1..], k)
  }

  predicate NoDuplicates(ks: seq<string>) {
    forall i, j | 0 <= i < j < |ks| :: ks[i] != ks[j]
  }

  /** Removing the first occurrence at index `i` is the splice at `i`. */
  lemma {:induction false} RemoveFirstAt(ks: seq<string>, k: string, i: nat)
    requires i < |ks| && ks[i] == k && forall j | 0 <= j < i :: ks[j] != k
    ensures RemoveFirst(ks, k) == ks[..i] + ks[i + 1..]
  {
    if i > 0 {
      RemoveFirstAt(ks[1..], k, i - 1);
      assert ks[1..][..i - 1] == ks[1..i];
      assert ks[1..][i..] == ks[i + 1..];
      assert ks[..i] == [ks[0]] + ks[1..i];
      Associative([ks[0]], ks[1..i], ks[i + 1..]);
    }
  }

  lemma {:induction false} RemoveFirstMembers(ks: seq<string>, k: string, x: string)
    requires NoDuplicates(ks)
    ensures x in RemoveFirst(ks, k) <==> x in ks && x != k
    ensures NoDuplicates(RemoveFirst(ks, k))
  {
    if ks != [] {
      assert NoDuplicates(ks[1..]) by {
        assert forall i | 0 <= i < |ks| - 1 :: ks[1..][i] == ks[i + 1];
      }
      assert ks[0] !in ks[1..];
      RemoveFirstMembers(ks[1..], k, x);
      SeqCons(ks);
      if ks[0] != k {
        var t := RemoveFirst(ks[1..], k);
        forall x' | x' in t
          ensures x' in ks[1..]
        {
          RemoveFirstMembers(ks[1..], k, x');
        }
        NoDuplicatesCons(ks[0], t);
      }
    }
  }

  lemma NoDuplicatesCons(x: string, t: seq<string>)
    requires NoDuplicates(t) && x !in t
    ensures NoDuplicates([x] + t)
  {
    forall i, j | 0 <= i < j < |[x] + t|
      ensures ([x] + t)[i] != ([x] + t)[j]
    {
      assert ([x] + t)[j] == t[j - 1];
      if i > 0 {
        assert ([x] + t)[i] == t[i - 1];
      }
    }
  }

  /** For a list without repetitions, toggling flips whether `k` is active,
      leaves every other keyword's membership alone and keeps the list free
      of repetitions. */
  lemma ToggledMembers(ks: seq<string>, k: string, x: string)
    requires NoDuplicates(ks)
    ensures k in Toggled(ks, k) <==> k !in ks
    ensures x != k ==> (x in Toggled(ks, k) <==> x in ks)
    ensures NoDuplicates(Toggled(ks, k))
  {
    if k in ks {
      RemoveFirstMembers(ks, k, x);
      RemoveFirstMembers(ks, k, k);
    } else {
      var t := ks + [k];
      assert t[|ks|] == k;
      assert forall i | 0 <= i < |ks| :: t[i] == ks[i];
    }
  }

  lemma {:induction false} RemoveFirstWithout(ks: seq<string>, k: string)
    ensures Without(RemoveFirst(ks, k), k) == Without(ks, k)
  {
    if ks != [] && ks[0] != k {
      RemoveFirstWithout(ks[1..], k);
      var t := RemoveFirst(ks[1..], k);
      DropPrefix([ks[0]], t);
      SeqCons([ks[0]] + t);
    }
  }

  lemma {:induction false} WithoutAppend(ks: seq<string>, k: string)
    ensures Without(ks + [k], k) == Without(ks, k)
  {
    if ks == [] {
      assert [k][1..] == [];
      assert Without([k], k) == [] + Without([], k);
    } else {
      WithoutAppend(ks[1..], k);
      DropPrefix([ks[0]], ks[1..] + [k]);
      SeqCons(ks);
      Associative([ks[0]], ks[1..], [k]);
    }
  }

  /** Toggling never reorders the other keywords. */
  lemma ToggledOrder(ks: seq<string>, k: string)
    ensures Without(Toggled(ks, k), k) == Without(ks, k)
  {
    if k in ks {
      RemoveFirstWithout(ks, k);
    } else {
      WithoutAppend(ks, k);
    }
  }

  /** Toggling an inactive keyword twice restores the list. */
  lemma ToggleTwice(ks: seq<string>, k: string)
    requires k !in ks
    ensures Toggled(Toggled(ks, k), k) == ks
  {
    var t := ks + [k];
    assert t[|ks|] == k;
    assert forall j | 0 <= j < |ks| :: t[j] == ks[j] && t[j] != k;
    RemoveFirstAt(t, k, |ks|);
    assert t[..|ks|] == ks;
  }

  /** The filter state the keyword chips and the search box share. */
  class KeywordFilter {
    var active: seq<string>
    var searchText: string

    constructor ()
      ensures active == [] && searchText == ""
    {
      active := [];
      searchText := "";
    }

    /** `toggleKeywordFilter(keyword)`: the search box is cleared, then the
        keyword's first occurrence is spliced out (`indexOf`) or the keyword
        is pushed. */
    method Toggle(keyword: string)
      modifies this
      ensures searchText == ""
      ensures active == Toggled(old(active), keyword)
    {
      searchText := "";
      var keywordIndex := 0;
      while keywordIndex < |active| && active[keywordIndex] != keyword
        invariant 0 <= keywordIndex <= |active|
        invariant forall j | 0 <= j < keywordIndex :: active[j] != keyword
      {
        keywordIndex := keywordIndex + 1;
      }
      if keywordIndex < |active| {
        RemoveFirstAt(active, keyword, keywordIndex);
        active := active[..keywordIndex] + active[keywordIndex + 1..];
      } else {
        active := active + [keyword];
      }
    }

  }

  /** Activating a keyword (toggling one that is not active) never adds a
      shown record to those shown with an empty search box before. */
  lemma ToggleOnNarrows(records: seq<Bulletin>, month: string, week: string, ks: seq<string>, k: string)
    requires k !in ks
    ensures Subsequence(FilterRecords(records, "", month, week, Toggled(ks, k)),
                        FilterRecords(records, "", month, week, ks))
  {
    AddKeyword(records, "", month, week, ks, k);
  }
}
