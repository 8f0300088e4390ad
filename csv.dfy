/** The lexer of `parseCSV` (script.js): a character automaton over comma
    separated text whose fields may be wrapped in double quotes, in the style
    of section 2 of RFC 4180. Inside quotes a doubled quote stands for one
    quote and commas and line breaks belong to the field; outside quotes a
    comma ends a field and CR, LF or CR LF ends a row. A row made of one
    empty field is not emitted.

    `Lexed` is the automaton as a function (one `Step` per loop iteration,
    `Run` over the rest of the text); `LexRows` is the loop itself, proved to
    compute `Lexed`. `Serialize` writes rows with every field quoted, and
    `ParseSerialize` proves that the lexer reads them back. */
module Csv {
  import opened Text

  type Row = seq<string>

  /** The variables of the loop: `inQuotes`, `currentField`, `fields`, `rows`. */
  datatype LexState = LexState(inQuotes: bool, field: string, fields: Row, rows: seq<Row>)

  const Start: LexState := LexState(false, [], [], [])

  /** `nextChar === x` for the text still to be read, `rest`, whose first
      character is the current one; reading past the end gives `undefined`. */
  predicate NextIs(rest: string, x: char) {
    |rest| > 1 && rest[1] == x
  }

  /** A row reaching a line break is kept unless it is one empty field. */
  function EndRow(fields: Row, rows: seq<Row>): (r: seq<Row>)
    ensures r == rows || r == rows + [fields]
    ensures r == rows + [fields] <==> |fields| > 1 || (|fields| == 1 && fields[0] != [])
  {
    if |fields| > 1 || (|fields| == 1 && fields[0] != []) then rows + [fields] else rows
  }

  /** One iteration of the loop on the text still to be read: how many
      characters it consumes and the new variables. */
  function Step(rest: string, st: LexState): (r: (nat, LexState))
    requires rest != []
    ensures 1 <= r.0 <= |rest|
  {
    var c := rest[0];
    if st.inQuotes then
      if c == '"' && NextIs(rest, '"') then (2, st.(field := st.field + ['"']))
      else if c == '"' then (1, st.(inQuotes := false))
      else (1, st.(field := st.field + [c]))
    else if c == '"' then (1, st.(inQuotes := true))
    else if c == ',' then (1, st.(field := [], fields := st.fields + [st.field]))
    else if c == '\n' || c == '\r' then
      var n := if NextIs(rest, '\n') && c == '\r' then 2 else 1;
      (n, LexState(false, [], [], EndRow(st.fields + [st.field], st.rows)))
    else (1, st.(field := st.field + [c]))
  }

  /** The automaton run over the rest of the text. */
  function Run(rest: string, st: LexState): LexState
    decreases |rest|, 1
  {
    if rest == [] then st else Continue(rest, Step(rest, st))
  }

  /** The run resumed after one step. */
  function Continue(rest: string, after: (nat, LexState)): LexState
    requires after.0 <= |rest|
    decreases |rest| - after.0, 2
  {
    Run(rest[after.0..], after.1)
  }

  /** The rows the lexer produces for `text`. */
  function Lexed(text: string): seq<Row> {
    Run(text, Start).rows
  }

  /** The lexing loop of `parseCSV`, over the already prepared text. */
  method LexRows(text: string) returns (rows: seq<Row>)
    ensures rows == Lexed(text)
  {
    rows := [];
    var fields: Row := [];
    var currentField: string := [];
    var inQuotes := false;
    var i := 0;
    while i < |text|
      invariant 0 <= i <= |text|
      invariant Run(text[i..], LexState(inQuotes, currentField, fields, rows)).rows == Lexed(text)
      decreases |text| - i
    {
      ghost var i0 := i;
      ghost var step := Step(text[i..], LexState(inQuotes, currentField, fields, rows));
      RunAdvance(text, i, LexState(inQuotes, currentField, fields, rows));
      var c := text[i];
      var nextIsQuote := i + 1 < |text| && text[i + 1] == '"';
      var nextIsLf := i + 1 < |text| && text[i + 1] == '\n';
      if inQuotes {
        if c == '"' && nextIsQuote {
          currentField := currentField + ['"'];
          i := i + 1;
        } else if c == '"' {
          inQuotes := false;
        } else {
          currentField := currentField + [c];
        }
      } else {
        if c == '"' {
          inQuotes := true;
        } else if c == ',' {
          fields := fields + [currentField];
          currentField := [];
        } else if c == '\n' || c == '\r' {
          if nextIsLf && c == '\r' {
            i := i + 1;
          }
          fields := fields + [currentField];
          if |fields| > 1 || (|fields| == 1 && fields[0] != []) {
            rows := rows + [fields];
          }
          fields := [];
          currentField := [];
        } else {
          currentField := currentField + [c];
        }
      }
      i := i + 1;
      assert step == (i - i0, LexState(inQuotes, currentField, fields, rows));
    }
  }

  /** One iteration of the loop seen on the whole text: the first character of
      `text[i..]` and its successor are `text[i]` and `text[i + 1]`. */
  lemma RunAdvance(text: string, i: nat, st: LexState)
    requires i < |text|
    ensures text[i..][0] == text[i]
    ensures NextIs(text[i..], '"') == (i + 1 < |text| && text[i + 1] == '"')
    ensures NextIs(text[i..], '\n') == (i + 1 < |text| && text[i + 1] == '\n')
    ensures Run(text[i..], st) == Run(text[i + Step(text[i..], st).0..], Step(text[i..], st).1)
  {
    assert text[i..][Step(text[i..], st).0..] == text[i + Step(text[i..], st).0..];
  }

  /** A row the lexer emits has at least one field and is not one empty field. */
  predicate WellFormedRow(r: Row) {
    |r| >= 1 && (|r| == 1 ==> r[0] != [])
  }

  predicate WellFormedRows(rows: seq<Row>) {
    forall k | 0 <= k < |rows| :: WellFormedRow(rows[k])
  }

  lemma {:induction false} RunKeepsRowsWellFormed(rest: string, st: LexState)
    requires WellFormedRows(st.rows)
    ensures WellFormedRows(Run(rest, st).rows)
    decreases |rest|
  {
    if rest != [] {
      var (n, next) := Step(rest, st);
      RunKeepsRowsWellFormed(rest[n..], next);
    }
  }

  /** Every emitted row has a field, and no emitted row is a lone empty field:
      blank lines and a trailing line break add no row. */
  lemma LexedRowsWellFormed(text: string)
    ensures WellFormedRows(Lexed(text))
  {
    RunKeepsRowsWellFormed(text, Start);
  }

  // ---------------------------------------------------------------------
  // Serialization with every field quoted, and the round trip.

  /** One character of a quoted field's content: a quote is doubled. */
  function EscapeChar(c: char): (e: string)
    ensures e == ['"', '"'] || e == [c]
  {
    if c == '"' then ['"', '"'] else [c]
  }

  /** A field's content with every quote doubled. */
  function Escape(f: string): (e: string)
    ensures |e| >= |f|
  {
    if f == [] then [] else EscapeChar(f[0]) + Escape(f[1..])
  }

  function QuoteField(f: string): string {
    ['"'] + Escape(f) + ['"']
  }

  /** Fields quoted and separated by commas. */
  function SerializeRow(r: Row): (s: string)
    requires |r| >= 1
    ensures |s| >= 2 && s[0] == '"' && s[|s| - 1] == '"'
  {
    if |r| == 1 then QuoteField(r[0]) else QuoteField(r[0]) + [','] + SerializeRow(r[1..])
  }

  /** The line break used between rows: LF, CR or CR LF. */
  predicate IsLineBreak(eol: string) {
    eol == ['\n'] || eol == ['\r'] || eol == ['\r', '\n']
  }

  /** Rows written one per line, separated by `eol`. */
  function Serialize(rows: seq<Row>, eol: string): (s: string)
    requires WellFormedRows(rows)
    ensures rows != [] ==> |s| >= 2 && s[0] == '"' && s[|s| - 1] == '"'
  {
    if rows == [] then []
    else
      if |rows| == 1 then SerializeRow(rows[0])
      else
        SerializeRow(rows[0]) + eol + Serialize(rows[1..], eol)
  }

  /** Inside quotes, one escaped character is read back as that character. */
  lemma RunEscapedChar(c: char, more: string, st: LexState)
    requires st.inQuotes
    ensures Run(EscapeChar(c) + more, st) == Run(more, st.(field := st.field + [c]))
  {
    var text := EscapeChar(c) + more;
    DropPrefix(EscapeChar(c), more);
    if c == '"' {
      assert text[0] == '"' && text[1] == '"';
    } else {
      assert text[0] == c;
    }
    assert Step(text, st) == (|EscapeChar(c)|, st.(field := st.field + [c]));
  }

  /** Inside quotes, an escaped run is read back as the original characters:
      a doubled quote gives one quote, and commas and line breaks stay in the field. */
  lemma {:induction false} RunEscaped(f: string, tail: string, st: LexState)
    requires st.inQuotes
    ensures Run(Escape(f) + tail, st) == Run(tail, st.(field := st.field + f))
    decreases |f|
  {
    if f == [] {
      AppendEmpty(tail);
      AppendEmpty(st.field);
    } else {
      Associative(EscapeChar(f[0]), Escape(f[1..]), tail);
      RunEscapedChar(f[0], Escape(f[1..]) + tail, st);
      var next := st.(field := st.field + [f[0]]);
      RunEscaped(f[1..], tail, next);
      AppendFirst(st.field, f);
    }
  }

  /** Opening quote: outside quotes a quote enters quoted mode. */
  lemma RunOpenQuote(more: string, st: LexState)
    requires !st.inQuotes
    ensures Run(['"'] + more, st) == Run(more, st.(inQuotes := true))
  {
    DropPrefix(['"'], more);
    assert Step(['"'] + more, st) == (1, st.(inQuotes := true));
  }

  /** Closing quote: inside quotes a quote not followed by another leaves quoted mode. */
  lemma RunCloseQuote(tail: string, st: LexState)
    requires st.inQuotes && (tail == [] || tail[0] != '"')
    ensures Run(['"'] + tail, st) == Run(tail, st.(inQuotes := false))
  {
    DropPrefix(['"'], tail);
    assert Step(['"'] + tail, st) == (1, st.(inQuotes := false));
  }

  lemma QuoteFieldThen(f: string, tail: string)
    ensures QuoteField(f) + tail == ['"'] + (Escape(f) + (['"'] + tail))
  {
    Associative(['"'] + Escape(f), ['"'], tail);
    Associative(['"'], Escape(f), ['"'] + tail);
  }

  /** Outside quotes, a quoted field followed by anything but a quote is read
      back as its content. */
  lemma RunQuoted(f: string, tail: string, st: LexState)
    requires !st.inQuotes && st.field == []
    requires tail == [] || tail[0] != '"'
    ensures Run(QuoteField(f) + tail, st) == Run(tail, st.(field := f))
  {
    var inside := st.(inQuotes := true);
    QuoteFieldThen(f, tail);
    RunOpenQuote(Escape(f) + (['"'] + tail), st);
    RunEscaped(f, ['"'] + tail, inside);
    AppendEmpty(f);
    RunCloseQuote(tail, inside.(field := f));
  }

  /** Outside quotes, a comma ends the current field. */
  lemma RunComma(more: string, st: LexState)
    requires !st.inQuotes
    ensures Run([','] + more, st) == Run(more, st.(field := [], fields := st.fields + [st.field]))
  {
    DropPrefix([','], more);
    assert Step([','] + more, st) == (1, st.(field := [], fields := st.fields + [st.field]));
  }

  lemma StepLineBreak(eol: string, tail: string, st: LexState)
    requires !st.inQuotes && IsLineBreak(eol)
    requires eol == ['\r'] ==> tail == [] || tail[0] != '\n'
    ensures Step(eol + tail, st) == (|eol|, LexState(false, [], [], EndRow(st.fields + [st.field], st.rows)))
  {
    DropPrefix(eol, tail);
    if eol == ['\r', '\n'] {
      assert (eol + tail)[1] == '\n';
    }
  }

  /** The line break `eol` ends the row of `fields` + [`field`] and is
      consumed whole. */
  lemma RunLineBreak(eol: string, tail: string, st: LexState)
    requires !st.inQuotes && IsLineBreak(eol)
    requires eol == ['\r'] ==> tail == [] || tail[0] != '\n'
    ensures Run(eol + tail, st)
         == Run(tail, LexState(false, [], [], EndRow(st.fields + [st.field], st.rows)))
  {
    StepLineBreak(eol, tail, st);
    DropPrefix(eol, tail);
  }

  /** A blank line, one that yields a single empty field, adds no row. */
  lemma BlankLine(eol: string, tail: string, rows: seq<Row>)
    requires IsLineBreak(eol)
    requires eol == ['\r'] ==> tail == [] || tail[0] != '\n'
    ensures Run(eol + tail, LexState(false, [], [], rows)) == Run(tail, LexState(false, [], [], rows))
  {
    RunLineBreak(eol, tail, LexState(false, [], [], rows));
  }

  /** The last field of a row, then the line break. */
  lemma RunLastField(f: string, eol: string, tail: string, st: LexState)
    requires !st.inQuotes && st.field == [] && IsLineBreak(eol)
    requires eol == ['\r'] ==> tail == [] || tail[0] != '\n'
    ensures Run(QuoteField(f) + eol + tail, st)
         == Run(tail, LexState(false, [], [], EndRow(st.fields + [f], st.rows)))
  {
    Associative(QuoteField(f), eol, tail);
    RunQuoted(f, eol + tail, st);
    RunLineBreak(eol, tail, st.(field := f));
  }

  /** A field that a comma ends. */
  lemma RunFieldComma(f: string, more: string, st: LexState)
    requires !st.inQuotes && st.field == []
    ensures Run(QuoteField(f) + [','] + more, st) == Run(more, st.(fields := st.fields + [f]))
  {
    Associative(QuoteField(f), [','], more);
    RunQuoted(f, [','] + more, st);
    RunComma(more, st.(field := f));
  }

  lemma SerializeRowCons(r: Row, eol: string, tail: string)
    requires |r| >= 2
    ensures SerializeRow(r) + eol + tail == QuoteField(r[0]) + [','] + (SerializeRow(r[1..]) + eol + tail)
  {
    var a := QuoteField(r[0]) + [','];
    var b := SerializeRow(r[1..]);
    assert SerializeRow(r) == a + b;
    Associative(a, b, eol);
    Associative(a, b + eol, tail);
  }

  /** The first field of a row of several, up to and including its comma. */
  lemma RunFirstField(r: Row, eol: string, tail: string, st: LexState)
    requires |r| >= 2 && !st.inQuotes && st.field == []
    ensures Run(SerializeRow(r) + eol + tail, st)
         == Run(SerializeRow(r[1..]) + eol + tail, st.(fields := st.fields + [r[0]]))
  {
    SerializeRowCons(r, eol, tail);
    RunFieldComma(r[0], SerializeRow(r[1..]) + eol + tail, st);
  }

  /** A serialized row followed by a line break is read back as that row. */
  lemma {:induction false} RunRow(r: Row, eol: string, tail: string, st: LexState)
    requires |r| >= 1 && !st.inQuotes && st.field == [] && IsLineBreak(eol)
    requires eol == ['\r'] ==> tail == [] || tail[0] != '\n'
    ensures Run(SerializeRow(r) + eol + tail, st)
         == Run(tail, LexState(false, [], [], EndRow(st.fields + r, st.rows)))
    decreases |r|
  {
    if |r| == 1 {
      Singleton(r);
      RunLastField(r[0], eol, tail, st);
    } else {
      RunFirstField(r, eol, tail, st);
      RunRow(r[1..], eol, tail, st.(fields := st.fields + [r[0]]));
      AppendFirst(st.fields, r);
    }
  }

  lemma SerializeCons(rows: seq<Row>, eol: string)
    requires WellFormedRows(rows) && |rows| >= 2
    ensures WellFormedRows(rows[1..])
    ensures Serialize(rows, eol) + ['\n'] == SerializeRow(rows[0]) + eol + (Serialize(rows[1..], eol) + ['\n'])
  {
    var a := SerializeRow(rows[0]) + eol;
    assert Serialize(rows, eol) == a + Serialize(rows[1..], eol);
    Associative(a, Serialize(rows[1..], eol), ['\n']);
  }

  /** The first of several serialized rows, up to and including its line break. */
  lemma RunFirstRow(rows: seq<Row>, eol: string, st: LexState)
    requires WellFormedRows(rows) && |rows| >= 2
    requires st == LexState(false, [], [], st.rows) && IsLineBreak(eol)
    ensures WellFormedRows(rows[1..])
    ensures Run(Serialize(rows, eol) + ['\n'], st)
         == Run(Serialize(rows[1..], eol) + ['\n'], LexState(false, [], [], st.rows + [rows[0]]))
  {
    SerializeCons(rows, eol);
    RunRow(rows[0], eol, Serialize(rows[1..], eol) + ['\n'], st);
    AppendEmpty(rows[0]);
  }

  lemma SerializeOne(rows: seq<Row>, eol: string)
    requires WellFormedRows(rows) && |rows| == 1
    ensures Serialize(rows, eol) + ['\n'] == SerializeRow(rows[0]) + ['\n'] + []
  {
    AppendEmpty(SerializeRow(rows[0]) + ['\n']);
  }

  /** The last serialized row and the final LF. */
  lemma RunLastRow(rows: seq<Row>, eol: string, st: LexState)
    requires WellFormedRows(rows) && |rows| == 1
    requires st == LexState(false, [], [], st.rows)
    ensures Run(Serialize(rows, eol) + ['\n'], st).rows == st.rows + rows
  {
    SerializeOne(rows, eol);
    RunRow(rows[0], ['\n'], [], st);
    AppendEmpty(rows[0]);
    Singleton(rows);
  }

  /** Serialized rows followed by a final LF are read back as those rows. */
  lemma {:induction false} RunRows(rows: seq<Row>, eol: string, st: LexState)
    requires WellFormedRows(rows) && rows != []
    requires st == LexState(false, [], [], st.rows) && IsLineBreak(eol)
    ensures Run(Serialize(rows, eol) + ['\n'], st).rows == st.rows + rows
    decreases |rows|
  {
    if |rows| == 1 {
      RunLastRow(rows, eol, st);
    } else {
      RunFirstRow(rows, eol, st);
      RunRows(rows[1..], eol, LexState(false, [], [], st.rows + [rows[0]]));
      AppendFirst(st.rows, rows);
    }
  }

  /** A lone LF gives no rows. */
  lemma LexedLoneLineFeed(text: string)
    requires text == ['\n']
    ensures Lexed(text) == []
  {
    DropPrefix(['\n'], []);
    AppendEmpty(['\n']);
    assert Step(text, Start) == (1, Start);
    assert Run(text, Start) == Continue(text, (1, Start)) == Run([], Start);
  }

  /** Serialized rows are already trimmed. */
  lemma TrimSerialized(rows: seq<Row>, eol: string)
    requires WellFormedRows(rows)
    ensures Trim(Serialize(rows, eol)) == Serialize(rows, eol)
  {
    TrimUnchanged(Serialize(rows, eol));
  }

  /** The round trip: `parseCSV`'s lexer reads back every list of rows written
      with all fields quoted, whichever line break separates the rows,
      as long as no row is a lone empty field (which the lexer never emits). */
  lemma ParseSerialize(rows: seq<Row>, eol: string)
    requires WellFormedRows(rows) && IsLineBreak(eol)
    ensures Lexed(Trim(Serialize(rows, eol)) + ['\n']) == rows
  {
    TrimSerialized(rows, eol);
    if rows == [] {
      AppendEmpty(['\n']);
      LexedLoneLineFeed(Serialize(rows, eol) + ['\n']);
    } else {
      RunRows(rows, eol, Start);
      AppendEmpty(rows);
    }
  }
}
