/** The assembly stage of `parseCSV`: the lexed rows become bulletin
    records by column position (the header row is skipped, short rows and
    rows without an identifier are dropped) and the records are sorted by
    start date, newest first. */
module Records {
  import opened Text
  import opened Civil
  import opened DateInfo
  import opened Sorting
  import Csv

  datatype Bulletin = Bulletin(id: string, dateInfo: DateInfo, title: string, summary: string,
                               body: string, link: string, faq: string, keywords: seq<string>)

  /** What a keyword list holds: non-empty, trimmed entries without commas. */
  predicate CleanKeywords(ks: seq<string>) {
    forall k | 0 <= k < |ks| :: ks[k] != [] && Trim(ks[k]) == ks[k] && ',' !in ks[k]
  }

  /** A character absent from a string is absent from its trimmed form. */
  lemma TrimKeepsOut(c: char, s: string)
    requires c !in s
    ensures c !in Trim(s)
  {
    var i, j := TrimShape(s);
    assert forall k | 0 <= k < j - i :: s[i..j][k] == s[i + k];
  }

  /** `.map(kw => kw.trim()).filter(kw => kw)`. */
  function TrimNonEmpty(parts: seq<string>): (ks: seq<string>)
    requires forall p | p in parts :: ',' !in p
    ensures CleanKeywords(ks)
    ensures |ks| <= |parts|
  {
    if parts == [] then []
    else
      var t := Trim(parts[0]);
      var rest := TrimNonEmpty(parts[1..]);
      CleanTrimmed(parts[0]);
      if t == [] then rest else CleanCons(t, rest); [t] + rest
  }

  lemma CleanTrimmed(p: string)
    requires ',' !in p
    ensures Trim(Trim(p)) == Trim(p) && ',' !in Trim(p)
  {
    TrimIdempotent(p);
    TrimKeepsOut(',', p);
  }

  lemma CleanCons(t: string, rest: seq<string>)
    requires t != [] && Trim(t) == t && ',' !in t && CleanKeywords(rest)
    ensures CleanKeywords([t] + rest)
  {
    forall k | 0 <= k < |[t] + rest|
      ensures ([t] + rest)[k] != [] && Trim(([t] + rest)[k]) == ([t] + rest)[k] && ',' !in ([t] + rest)[k]
    {
      if k > 0 {
        assert ([t] + rest)[k] == rest[k - 1];
      }
    }
  }

  /** The keywords of one cell: split on `,`, trimmed, empties removed. */
  function CellKeywords(cell: string): (ks: seq<string>)
    ensures CleanKeywords(ks)
  {
    TrimNonEmpty(Split(cell, ','))
  }

  /** `values.slice(8).flatMap(kwCell => kwCell.split(','))…`: the keywords of
      every cell from index 8 on, in order. */
  function KeywordCells(cells: seq<string>): (ks: seq<string>)
    ensures CleanKeywords(ks)
  {
    if cells == [] then []
    else
      var first := CellKeywords(cells[0]);
      var rest := KeywordCells(cells[1..]);
      CleanAppend(first, rest);
      first + rest
  }

  lemma CleanAppend(a: seq<string>, b: seq<string>)
    requires CleanKeywords(a) && CleanKeywords(b)
    ensures CleanKeywords(a + b)
  {
    forall k | 0 <= k < |a + b|
      ensures (a + b)[k] != [] && Trim((a + b)[k]) == (a + b)[k] && ',' !in (a + b)[k]
    {
      if k < |a| {
        assert (a + b)[k] == a[k];
      } else {
        assert (a + b)[k] == b[k - |a|];
      }
    }
  }

  /** An empty keyword cell gives no keyword. */
  lemma EmptyCellNoKeywords(cell: string)
    requires AllWhitespace(cell)
    ensures CellKeywords(cell) == []
  {
    TrimAllWhitespace(cell);
    assert forall k | 0 <= k < |cell| :: cell[k] != ',';
    SplitNoSeparator(cell, ',');
  }

  /** Clean keywords pass through the trim-and-drop stage unchanged. */
  lemma {:induction false} TrimNonEmptyClean(ks: seq<string>)
    requires CleanKeywords(ks)
    ensures TrimNonEmpty(ks) == ks
  {
    if ks != [] {
      TrimNonEmptyClean(ks[1..]);
      SeqCons(ks);
    }
  }

  /** A cell written as clean keywords joined by commas reads back as those
      keywords; spaces around the commas would be trimmed away. */
  lemma CellKeywordsJoin(ks: seq<string>)
    requires CleanKeywords(ks)
    ensures CellKeywords(Join(ks, ',')) == ks
  {
    if ks == [] {
      assert Split([], ',') == [[]];
    } else {
      assert forall p | p in ks :: ',' !in p;
      SplitJoin(ks, ',');
      TrimNonEmptyClean(ks);
    }
  }

  /** One row as a record (`values[1]` the id, `values[3]` … `values[7]` the
      texts, keywords from `values[8]` on), or none for a row with fewer than
      nine cells. */
  function ToBulletin(values: Csv.Row): (r: Option<Bulletin>)
    ensures r.Some? <==> |values| >= 9
    ensures r.Some? ==> r.value.id == Trim(values[1]) && r.value.keywords == KeywordCells(values[8..])
  {
    if |values| < 9 then None
    else
      var id := Trim(values[1]);
      Some(Bulletin(id, ParseIdToDateInfo(id), Trim(values[3]), Trim(values[4]), Trim(values[5]),
                    Trim(values[6]), Trim(values[7]), KeywordCells(values[8..])))
  }

  /** `rows.map(values => …)`: one optional record per row. */
  function Candidates(rows: seq<Csv.Row>): (cs: seq<Option<Bulletin>>)
    ensures |cs| == |rows| && forall k | 0 <= k < |rows| :: cs[k] == ToBulletin(rows[k])
  {
    Map(ToBulletin, rows)
  }

  /** `.filter(item => item && item.id)`: the records with a non-empty id, in order. */
  function KeepWithId(cs: seq<Option<Bulletin>>): (bs: seq<Bulletin>)
    ensures |bs| <= |cs|
  {
    if cs == [] then []
    else (if cs[0].Some? && cs[0].value.id != [] then [cs[0].value] else []) + KeepWithId(cs[1..])
  }

  /** The records kept are exactly the records present with a non-empty id. */
  lemma {:induction false} KeepWithIdMembers(cs: seq<Option<Bulletin>>, b: Bulletin)
    ensures b in KeepWithId(cs) <==> Some(b) in cs && b.id != []
  {
    if cs != [] {
      KeepWithIdMembers(cs[1..], b);
      SeqCons(cs);
    }
  }

  /** `b.dateInfo.startDate` as the subtraction in the comparator sees it:
      the day number, and 0 (the instant of 1970-01-01) for a missing date. */
  function SortKey(b: Bulletin): int {
    match b.dateInfo.startDate
    case Some(d) => if ValidDate(d) then DayNumber(d) else 0
    case None => 0
  }

  /** `rows.slice(1).map(…).filter(…).sort((a, b) => b.startDate - a.startDate)`;
      the records are mapped first and the header's dropped afterwards, which
      gives the same list. */
  function Assemble(rows: seq<Csv.Row>): seq<Bulletin> {
    SortDesc(SortKey, KeepWithId(AfterHeader(Candidates(rows))))
  }

  function AfterHeader<T>(xs: seq<T>): seq<T> {
    if xs == [] then [] else xs[1..]
  }

  /** The candidates after the header are those at positions 1 and later. */
  lemma AfterHeaderMembers<T>(xs: seq<T>, y: T)
    ensures y in AfterHeader(xs) <==> exists k | 1 <= k < |xs| :: xs[k] == y
  {
    if y in AfterHeader(xs) {
      var k :| 0 <= k < |xs[1..]| && xs[1..][k] == y;
      assert xs[k + 1] == y;
    }
    if exists k | 1 <= k < |xs| :: xs[k] == y {
      var k :| 1 <= k < |xs| && xs[k] == y;
      assert xs[1..][k - 1] == y;
    }
  }

  /** A record is in the result exactly when some row after the header has
      at least nine cells and yields it, and its trimmed `values[1]` is not
      empty: the header and short rows never contribute. */
  lemma AssembleMembers(rows: seq<Csv.Row>, b: Bulletin)
    ensures b in Assemble(rows)
            <==> b.id != [] && exists k | 1 <= k < |rows| :: ToBulletin(rows[k]) == Some(b)
  {
    var cs := Candidates(rows);
    var kept := KeepWithId(AfterHeader(cs));
    SortDescSorted(SortKey, kept);
    InMultiset(b, SortDesc(SortKey, kept), kept);
    KeepWithIdMembers(AfterHeader(cs), b);
    AfterHeaderMembers(cs, Some(b));
    CandidateAt(rows, b);
  }

  lemma CandidateAt(rows: seq<Csv.Row>, b: Bulletin)
    ensures (exists k | 1 <= k < |rows| :: Candidates(rows)[k] == Some(b))
        <==> (exists k | 1 <= k < |rows| :: ToBulletin(rows[k]) == Some(b))
  {
    var cs := Candidates(rows);
    assert forall k | 1 <= k < |rows| :: cs[k] == ToBulletin(rows[k]);
  }

  lemma InMultiset<T>(x: T, a: seq<T>, b: seq<T>)
    requires multiset(a) == multiset(b)
    ensures x in a <==> x in b
  {
    assert x in a <==> x in multiset(a);
    assert x in b <==> x in multiset(b);
  }

  /** The result is sorted by start date, newest first (undated records count
      as 1970-01-01), and bulletins with the same start date keep the order of
      their rows. */
  lemma AssembleSorted(rows: seq<Csv.Row>, key: int)
    ensures SortedDesc(SortKey, Assemble(rows))
    ensures WithKey(SortKey, Assemble(rows), key)
         == WithKey(SortKey, KeepWithId(AfterHeader(Candidates(rows))), key)
  {
    var kept := KeepWithId(AfterHeader(Candidates(rows)));
    SortDescSorted(SortKey, kept);
    SortDescStable(SortKey, kept, key);
  }

  /** The header row never matters. */
  lemma AssembleIgnoresHeader(h1: Csv.Row, h2: Csv.Row, rows: seq<Csv.Row>)
    ensures Assemble([h1] + rows) == Assemble([h2] + rows)
  {
    CandidatesAfterHeader(h1, rows);
    CandidatesAfterHeader(h2, rows);
  }

  lemma CandidatesAfterHeader(h: Csv.Row, rows: seq<Csv.Row>)
    ensures AfterHeader(Candidates([h] + rows)) == Candidates(rows)
  {
    MapTail(ToBulletin, h, rows);
  }

  /** `parseCSV(text)`: the text is trimmed and a line feed appended, the
      lexer loop runs, and the rows are assembled. */
  method ParseCsv(text: string) returns (bulletins: seq<Bulletin>)
    ensures bulletins == Assemble(Csv.Lexed(Trim(text) + ['\n']))
  {
    var prepared := Trim(text) + ['\n'];
    var rows := Csv.LexRows(prepared);
    bulletins := Assemble(rows);
  }

  /** A table written by the serializer (fields quoted, any line break)
      parses to the records of its rows. */
  lemma ParseCsvOfSerialized(rows: seq<Csv.Row>, eol: string)
    requires Csv.WellFormedRows(rows) && Csv.IsLineBreak(eol)
    ensures Assemble(Csv.Lexed(Trim(Csv.Serialize(rows, eol)) + ['\n'])) == Assemble(rows)
  {
    Csv.ParseSerialize(rows, eol);
  }
}
