# A verified model of the bulletin reader's data pipeline

The bulletin reader (`script.js`) is a browser page that loads a CSV sheet
of weekly bulletins and shows them as cards. Readers can filter the cards
by text, month, ISO week and keyword, and open one to read its rendered
Markdown. This project models the deterministic core behind the page, in
Dafny, and proves what each step promises:

- **`parseCSV`**
  - the lexer: a quote-aware character automaton (`Csv`);
  - the record assembly: rows to bulletins, then a stable sort by start date, newest first (`Records`, `Sorting`).
- **`parseIdToDateInfo`**: decodes an identifier `YYYY-n_start_end` into its dates, its week number and a Spanish label (`DateInfo`, over the calendar of `Civil`).
- **ISO weeks**: `getWeekNumber`, `getWeekDates` and `formatWeekDisplay`, computed over day numbers with week 1 holding the year's first Thursday, as section 4.1.4 of ISO 8601:2004 defines it (`IsoWeek`).
- **The filter engine**:
  - `normalizeText`, which lower-cases, decomposes and drops combining marks (`Normalize`);
  - the record predicate of `applyFilters`, lifted to a filter over lists;
  - the month and week options of `populateFilterOptions`;
  - `toggleKeywordFilter` on the shared filter state (`Filter`).
- **Markdown link rewriting**: `processMarkdownContent` (`Markdown`).
- **Anchors and headings**:
  - the href rule of `processExternalLinks` (`ExternalLinks`);
  - the heading loop of `generateTableOfContents` (`Toc`).
- **The colour theme**: `cycleTheme`, start-up and the colour-scheme listener (`Theme`).

Where the source works by changing state step by step, the model does the
same. The lexer, the filter-option pass, the keyword toggle, the placeholder
restore, the table-of-contents loop, the anchor loop and the theme toggle are
methods with loops or assignments to fields. Each is proved equal to a
specification function, and the source's promises are proved about that
function as lemmas.

In two places, proving the natural property showed that the code does not do
what its authors intended. Both are listed under "Findings", each with the
code as written and a corrected version.

## Model

| member | source | states |
|---|---|---|
| Csv.EndRow | script.js:347-351 | a finished row is added exactly when it has more than one field or its only field is not empty |
| Csv.Step | script.js:329-355 | one loop iteration consumes one character, or two for `""` inside quotes and for CR LF |
| Csv.LexRows | script.js:325-357 | the lexing loop, with its index, quote flag, field, fields and rows, computes `Lexed`, the automaton run over the whole text |
| Csv.RunAdvance | script.js:326-327 | `char` and `nextChar` of iteration `i` are the first two characters of the text still to read, and the loop resumes after the characters consumed |
| Csv.RunEscaped | script.js:330-337 | inside quotes, an escaped field (every `"` doubled) adds exactly its unescaped text to the current field, commas and line breaks included |
| Csv.RunOpenQuote | script.js:339-340 | outside quotes, `"` switches into quoted mode, even in the middle of a field |
| Csv.RunCloseQuote | script.js:333-334 | inside quotes, a `"` not followed by another `"` leaves quoted mode |
| Csv.RunComma | script.js:341-343 | outside quotes, a comma ends the current field |
| Csv.StepLineBreak | script.js:344-352 | outside quotes, LF, a lone CR or CR LF ends the row; CR LF is consumed as one break |
| Csv.BlankLine | script.js:347-351 | a line that yields only one empty field adds no row |
| Csv.RunKeepsRowsWellFormed | script.js:347-351 | every row the automaton emits is non-empty and not a single empty field |
| Csv.LexedRowsWellFormed | script.js:325-357 | every lexed row is non-empty and not a single empty field |
| Csv.RunRow | script.js:339-352 | a serialized row followed by a line break is read back as exactly that row |
| Csv.RunRows | script.js:325-357 | a sequence of serialized rows is read back as exactly those rows |
| Csv.LexedLoneLineFeed | script.js:323 | the text `"\n"` that an empty input becomes yields no rows |
| Csv.TrimSerialized | script.js:323 | trimming does not change serialized rows, which start and end with a quote |
| Csv.ParseSerialize | script.js:323-357 | trimming, appending `\n` and lexing any well-formed table written with any line break gives back exactly its rows |
| Records.TrimNonEmpty | script.js:364-365 | trimming the parts and dropping empty ones leaves non-empty, trimmed, comma-free keywords |
| Records.CellKeywords | script.js:363-365 | the keywords of one cell are clean |
| Records.KeywordCells | script.js:362-365 | the keywords of all cells from index 8 on are clean |
| Records.EmptyCellNoKeywords | script.js:362-365 | an empty or blank keyword cell gives no keyword |
| Records.TrimNonEmptyClean | script.js:364-365 | clean keywords pass through trim-and-drop unchanged |
| Records.CellKeywordsJoin | script.js:363-365 | a cell of clean keywords joined by commas reads back as those keywords |
| Records.ToBulletin | script.js:359-376 | a row gives a record exactly when it has at least nine cells; the id is the trimmed `values[1]` and the keywords come from `values[8..]` |
| Records.Candidates | script.js:359 | one candidate per row, in order |
| Records.KeepWithIdMembers | script.js:377 | a record is kept exactly when it is present with a non-empty id |
| Records.AfterHeaderMembers | script.js:359 | the rows after the header are exactly those at positions 1 and later |
| Records.AssembleMembers | script.js:359-377 | a record is in the result exactly when its id is non-empty and some row after the header has at least nine cells and yields it |
| Records.AssembleSorted | script.js:377 | the result is sorted by start date, newest first, with an undated record counting as 1970-01-01; records with equal start dates keep the order of their rows |
| Records.AssembleIgnoresHeader | script.js:359 | the first row never affects the result |
| Records.ParseCsv | script.js:317-378 | `parseCSV` is the assembly of the lexer's rows for the trimmed text with `\n` appended |
| Records.ParseCsvOfSerialized | script.js:317-378 | a serialized table parses to the records of its rows |
| Sorting.Insert | script.js:377 | insertion is a permutation that adds exactly one element |
| Sorting.SortDesc | script.js:377 | the sort is a permutation of its input |
| Sorting.InsertSorted | script.js:377 | inserting into a descending list keeps it descending |
| Sorting.SortDescSorted | script.js:377 | the sort's output is descending by key and a permutation of the input |
| Sorting.WithKeyAppend | script.js:377 | the elements with one key, taken from a concatenation, are those from each part in turn |
| Sorting.InsertWithKey | script.js:377 | insertion puts the new element before the elements that share its key |
| Sorting.SortDescStable | script.js:377 | elements with the same key keep their original order (the sort is stable) |
| Civil.DaysInMonth | script.js:904-905 | every month has 28 to 31 days, with February following the Gregorian leap rule |
| Civil.YearStartNext | script.js:932-937 | the next year starts one year length later |
| Civil.MonthsFillYear | script.js:932-937 | the twelve months add up to the year's length |
| Civil.DayNumber | script.js:932-937 | a valid date's day number lies inside its year |
| Civil.YearOf | script.js:932-937 | every day number falls in a year |
| Civil.FromDayNumber | script.js:939-958 | every day number is the day number of a valid date |
| Civil.DayNumberOrder | script.js:377 | a later date has a larger day number, so subtracting dates orders them |
| Civil.DayNumberInjective | script.js:377 | different dates have different day numbers |
| Civil.FromDayNumberOfDayNumber | script.js:939-958 | converting a date to its day number and back gives the same date |
| Civil.LaterNumber | script.js:954-955 | stepping a date forward by up to 28 days adds exactly that many days |
| Civil.DaysLater | script.js:954-955 | the date `k` days after `d` is `d` with the day, the month and possibly the year rolled over |
| Civil.IsoWeekday | script.js:934 | `getUTCDay() \|\| 7`: the weekday is 1 (Monday) to 7 (Sunday) and agrees with the day of the week |
| Civil.MonthNameInjective | script.js:921 | different months have different names, so comparing names compares months |
| IsoWeek.ThursdayOf | script.js:934 | the adjusted date is the Thursday of the Monday-to-Sunday week, at most three days away |
| IsoWeek.WeekNumber | script.js:932-937 | `getWeekNumber` lies between 1 and 53 |
| IsoWeek.FirstThursday | script.js:945 | the first Thursday on or after 1 January is a Thursday within the first seven days of the year |
| IsoWeek.WeekMonday | script.js:946-951 | the computed week start is a Monday |
| IsoWeek.GetWeekDates | script.js:939-958 | `start` is the Monday three days before the first Thursday, moved on by 7·(n−1) days, and `end` is six days later |
| IsoWeek.WeekdaysFromMonday | script.js:954-955 | the six days after a Monday are Tuesday to Sunday |
| IsoWeek.WeekContains | script.js:932-958 | the week `getWeekDates` returns for a day's week number and week year contains that day |
| IsoWeek.ThursdayOfWeekDay | script.js:934 | every day of a Monday-to-Sunday week has the same Thursday |
| IsoWeek.WeekRangeIff | script.js:932-958 | for weeks 1 to 52, a day has week number `w` in week year `y` exactly when it lies in the range `getWeekDates(w, y)` returns |
| IsoWeek.WeekNumberOfMonday | script.js:932-958 | the Monday of week `w` of `y` has week number `w` and week year `y` |
| IsoWeek.WeekSpan | script.js:954-955 | the week's end date is its start date moved on by six days |
| IsoWeek.FormatWeekDisplaySpan | script.js:960-978 | the label is built from the week's Monday and the date six days after it |
| IsoWeek.WeekLabelOfSpan | script.js:968-977 | a week inside one month is labelled "del d1 al d2 de mes"; a week that crosses into the next month is labelled with both months, and the end day and month roll over |
| DateInfo.ParseDate | script.js:904-907 | a date is read only from `YYYY-MM-DD` with a day the month has; anything else, including a day past the end of the month, counts as invalid (see "Left out") |
| DateInfo.ParseFormatDate | script.js:904-905 | reading back a date written as `YYYY-MM-DD` gives the same date |
| DateInfo.MatchYearWeek | script.js:901-902 | the week is present exactly when the first segment is four digits, `-` and one or more digits |
| DateInfo.ParseIdToDateInfo | script.js:892-930 | the start and end dates are both present or both absent, and present dates are valid |
| DateInfo.FewSegments | script.js:896-897 | a non-empty id with fewer than two `_` shows itself as the label, with no dates and no week |
| DateInfo.InvalidDates | script.js:904-909 | an unreadable start or end date gives no dates and `Fecha inválida`, and keeps the week decoded from the first segment |
| DateInfo.RangeLabelShape | script.js:911-925 | when the months are the same, the range is "del d1 al d2 de m2 de y"; otherwise it is "del d1 de m1 al d2 de m2 de y"; y is the end date's year |
| DateInfo.LabelPrefix | script.js:918-927 | the label starts with "Semana n: " exactly when the week is present and not 0; otherwise it is the bare range |
| DateInfo.ParseMakeId | script.js:892-930 | an id written from a year, a week and two dates decodes to those dates, that week and their label |
| Normalize.Lower | script.js:184 | lower-casing leaves no upper-case letter of the table and does not create or remove combining marks |
| Normalize.StripMarks | script.js:184 | no combining mark U+0300–U+036F is left |
| Normalize.NormalizeCons | script.js:182-185 | normalization works one character at a time |
| Normalize.NormalizeIsFold | script.js:182-185 | normalization equals the character-by-character fold, a reference definition built from each character's contribution |
| Normalize.NormalizeAppend | script.js:182-185 | normalizing a concatenation is the concatenation of the normalized parts |
| Normalize.NormalizedShape | script.js:182-185 | the result has no upper-case letter, no combining mark and no precomposed accented letter |
| Normalize.NormalizeIdempotent | script.js:182-185 | normalizing twice is normalizing once |
| Normalize.NormalizeFixed | script.js:182-185 | text that is already lower-case and unaccented is left unchanged |
| Normalize.JoseExample | script.js:182-185 | "José" and "JOSÉ" both normalize to "jose" |
| Filter.SelectSubsequence | script.js:506 | `filter` keeps an order-preserving subsequence |
| Filter.SelectMembers | script.js:506 | an element is kept exactly when it is present and satisfies the predicate |
| Filter.SelectAppend | script.js:506 | filtering a concatenation filters each part in turn |
| Filter.SelectAnd | script.js:506-524 | filtering by a conjunction is filtering by each conjunct in turn |
| Filter.FilterOrder | script.js:506-529 | the shown records are an order-preserving subsequence of all records, and filtering distributes over concatenation |
| Filter.FilterMembers | script.js:506-524 | a record is shown exactly when it is present and matches; every shown record has a valid start date |
| Filter.NoCriteria | script.js:508-524 | with an empty search, no month, no week and no keyword, every dated record is shown |
| Filter.AddKeyword | script.js:514 | adding an active keyword keeps exactly the shown records that carry it (after normalization), so it never adds a record |
| Filter.KeywordsAppend | script.js:514 | a record matches one keyword more exactly when it matched before and carries the new keyword |
| Filter.SearchNormalized | script.js:502 | search terms with the same normalization show the same records |
| Filter.ContainsNormalized | script.js:517-522 | text that contains the term still contains it after both are normalized |
| Filter.TitleFound | script.js:517-518 | a dated record whose title contains the search text matches it |
| Filter.MonthSelection | script.js:511 | selecting month `m` matches exactly the records whose `getMonth()` is `m` |
| Filter.WeekSelection | script.js:512 | selecting week `w` matches exactly the records whose ISO week is `w` |
| Filter.Collect | script.js:474-485 | the `forEach` collects the months and weeks of the dated records and the year of the first dated record whose year is not 0 |
| Filter.MonthsOfMembers | script.js:474-479 | a month is collected exactly when some dated record falls in it |
| Filter.WeeksOfMembers | script.js:474-479 | a week is collected exactly when some dated record falls in it |
| Filter.FirstYearIs | script.js:482-484 | `currentYear` is 0 exactly when every dated record's year is 0; otherwise it is the first non-zero year, in list order |
| Filter.Ascending | script.js:488-492 | the list is strictly increasing, stays within range and holds exactly the set's members |
| Filter.Options | script.js:488-492 | the first option is the empty "all" value, followed by one option per number, in order |
| Filter.OptionValuesDistinct | script.js:488-492 | option values are pairwise distinct |
| Filter.PopulateFilterOptions | script.js:464-493 | the month options and week options are those of the ascending distinct months and weeks, with week labels for `currentYear \|\| now` |
| Filter.MonthOptionsSound | script.js:488 | month options are distinct, each one selects at least one dated record, and every dated record's month is offered |
| Filter.WeekOptionsSound | script.js:492 | week options are distinct, each one selects at least one dated record, and every dated record's week is offered |
| Filter.RemoveFirstAt | script.js:539-542 | `splice(indexOf(k), 1)` removes exactly the first occurrence |
| Filter.RemoveFirstMembers | script.js:542 | in a list without duplicates, removing `k` leaves exactly the other entries, still without duplicates |
| Filter.ToggledMembers | script.js:539-545 | toggling flips whether `k` is active, leaves every other keyword as it was, and keeps the list free of duplicates |
| Filter.ToggledOrder | script.js:539-545 | the entries other than `k` keep their relative order |
| Filter.ToggleTwice | script.js:539-545 | toggling an inactive keyword twice restores the list |
| Filter.KeywordFilter.Toggle | script.js:533-545 | the search box is emptied, and the active list becomes the first occurrence of `k` removed, or `k` appended |
| Filter.ToggleOnNarrows | script.js:533-545 | compared with an empty search box, activating a keyword never adds a shown record (the toggle itself empties the search box, script.js:535-537) |
| Markdown.Find | script.js:568 | the position of the first `]` or `)`, or the end of the text |
| Markdown.LinkMatch | script.js:568 | a match is a written link `[t](u)` with no `]` in `t` and no `)` in `u` |
| Markdown.LinkMatchOf | script.js:568 | a written link is matched whole, with its text and url as the groups |
| Markdown.Placeholder | script.js:572 | a placeholder starts with `_` and contains no `h` |
| Markdown.ProtectPlain | script.js:568-575 | text without `[` passes the first `replace` unchanged |
| Markdown.ProtectValidLink | script.js:568-575 | a link with a usable url becomes placeholder `n`, and the link is stored verbatim |
| Markdown.ProtectInvalidLink | script.js:569-571 | a link whose url is empty, blank or `undefined` collapses to its text |
| Markdown.RunLength | script.js:581 | the run of URL characters stops at whitespace, `)`, `]` or the end of the text |
| Markdown.UrlMatch | script.js:581 | a URL match starts with `h` and is at least eight characters long |
| Markdown.SchemeMatch | script.js:581 | `http://` or `https://` followed by URL characters matches up to the end of the run |
| Markdown.AutolinkNoScheme | script.js:581-583 | text without `h` is not changed by autolinking |
| Markdown.AutolinkWrap | script.js:581-583 | a bare URL that ends at whitespace, `)` or `]` becomes `[u](u)`, and the rest of the text is autolinked after it |
| Markdown.AutolinkStop | script.js:581-583 | text that ends in a non-URL character is autolinked independently of what follows |
| Markdown.AutolinkKeepsOut | script.js:581-583 | autolinking adds no `_` |
| Markdown.FirstOccurrence | script.js:587 | the first offset at or after `i` where the pattern occurs, or none |
| Markdown.ReplaceAt | script.js:587 | `replace` with a string pattern replaces its first occurrence |
| Markdown.Restore | script.js:586-588 | the `forEach` over the placeholders replaces each one's first occurrence, in insertion order |
| Markdown.ProcessMarkdownContent | script.js:560-591 | the three passes, in order; empty content gives `''` |
| Markdown.NoLinks | script.js:560-591 | content without links is only autolinked |
| Markdown.ProtectSegments | script.js:568-575 | in text holding any number of links with usable urls, the first `replace` puts placeholders 0, 1, 2, … in place of the links, in order, and stores each link verbatim under its placeholder |
| Markdown.AutolinkSegments | script.js:578-583 | when each text before a placeholder is empty or ends in whitespace, `)` or `]`, autolinking leaves the placeholders in place and autolinks each text between them on its own |
| Markdown.RestoreSegments | script.js:586-588 | restoring the stored links, in insertion order, puts each link back exactly where its placeholder stands, when no link holds a placeholder and the autolinked text holds no `_` |
| Markdown.ValidLinksKept | script.js:560-591 | links with usable urls, however many, come back exactly as written and in order, and are not re-wrapped; the text before and between them is autolinked |
| Markdown.PlaceholderLeaks | script.js:568-588 | a URL directly followed by a link swallows the link's placeholder, and the output keeps a literal `__LINK_PLACEHOLDER_0__` |
| Markdown.FixedKeepsLinks | script.js:560-591 | corrected: links with usable urls, however many, are kept verbatim and in order, whatever the text before each ends with; the text between them is autolinked |
| Markdown.FixedAgreesWithoutLinks | script.js:560-591 | the corrected and the original rewriting agree on content without links |
| Markdown.FixedNoLeak | script.js:568-588 | corrected, on the leaking input: the URL is wrapped up to the link, and the link follows as written |
| Markdown.AutolinkTwice | script.js:578-583 | the autolink pass alone is not idempotent: it turns a bare URL `u` into `[u](u)`, and a second pass wraps that whole link again, because `[` is a URL character |
| Markdown.MarkdownIdempotent | script.js:560-591 | on text whose URLs are bare, `processMarkdownContent` wraps each URL as `[u](u)`, and running it again on its own output changes nothing, since the first pass protects the links it made |
| ExternalLinks.ExternalIff | script.js:603 | an href is external exactly when it starts with `http://` or `https://` |
| ExternalLinks.Marked | script.js:603-606 | external anchors get `target="_blank"` and `rel="noopener noreferrer"`; no other anchor changes, and no href changes |
| ExternalLinks.MarkedIdempotent | script.js:603-606 | marking twice is marking once |
| ExternalLinks.ProcessExternalLinks | script.js:599-607 | the loop marks every anchor in place, each exactly as `Marked` says |
| Toc.HeadingIdInjective | script.js:625 | different positions get different anchors |
| Toc.IndentValues | script.js:631 | the six levels are indented by 0, 0.75, 1.5, 2.25, 3 and 3.75 rem |
| Toc.ConcatAt | script.js:633-640 | each part of the appended text follows the parts before it |
| Toc.TocLinksAt | script.js:622-641 | the i-th heading's link, with anchor `heading-i` and its level's indent, follows the links of the headings before it |
| Toc.AssignIds | script.js:625-628 | the heading at position `i` gets id `heading-i`, and nothing else about the headings changes |
| Toc.LinksHtml | script.js:622-641 | the loop appends one link per heading, in document order |
| Toc.GenerateTableOfContents | script.js:612-645 | with no headings, the result is the notice and nothing changes; otherwise it is the navigation block of the links, and every heading gets its anchor id |
| Theme.Effective | script.js:26 | a missing or empty stored theme reads as `system` |
| Theme.NextCycle | script.js:27-30 | the cycle goes system → light → dark → system, any other value goes to system, and three clicks return to the start |
| Theme.IconDistinct | script.js:15-23 | the three themes have three different icons |
| Theme.DarkOnlyFollowsSystem | script.js:7-13 | only `system` depends on the system preference; `dark` is always dark and `light` never is |
| Theme.DefaultIgnoresSchemeChange | script.js:37-45 | with nothing stored the page shows the system theme, and after the system switches from light to dark it stays light |
| Theme.AfterSchemeChangeFixed | script.js:41-45 | corrected: the document follows the system whenever the theme in effect is `system` |
| Theme.SchemeChangeKeepsConsistent | script.js:37-45 | after the corrected listener the document shows the theme in effect; the original listener agrees once a theme is stored |
| Theme.Page.constructor | script.js:37-39 | start-up applies the saved theme and shows its icon |
| Theme.Page.Cycle | script.js:25-35 | `cycleTheme` stores the next theme, applies it and shows its icon, so the page shows a known theme consistently |
| Theme.Page.SchemeChanged | script.js:41-45 | the listener as written: it re-applies the theme only when `system` is stored explicitly |

## Left out

- Browser state and I/O are not modelled:
  - the DOM and event wiring;
  - `fetch` and configuration loading;
  - `localStorage` and `matchMedia`.
  
  They become values instead. `Theme.Page` holds the stored theme, the `dark` class and the icon. The system preference is a parameter, and `new Date().getFullYear()` is the parameter `nowYear`.
- `marked.parse` is a foreign library. `processExternalLinks` and `generateTableOfContents` receive lists of anchors and headings rather than HTML, and parsing or serializing HTML is not modelled.
- Toc.GenerateTableOfContents: the source does both jobs in one `forEach`: it sets `heading.id` and appends to `tocHtml`. The model does them in two loops over the same headings: `LinksHtml` builds the text and `AssignIds` writes the ids. The result and the final headings are the same. The interleaving of the two writes is not captured.
- Toc: headings are given as (level, text, id) records. The level is the digit of an `h1`…`h6` tag, and `textContent` is the given text.
- Dates:
  - Only `YYYY-MM-DD` is read. `new Date(string)` accepts many other formats, which count as invalid here.
  - Every date is taken in UTC. So `getMonth`, `getDate` and `getFullYear` agree with the UTC date, and no time-zone shift can move a day.
  - `toLocaleDateString('es-ES')` is a fixed table of month names (enero … diciembre) plus the decimal day.
- Normalize: NFD decomposition and lower-casing come from a table that covers ASCII and Latin-1. All other characters are left as they are, and full Unicode case mapping and decomposition are not modelled.
- Markdown.Restore: the `$` patterns of `String.prototype.replace` are not interpreted; links are assumed to contain no `$`.
- Markdown.ValidLinksKept: it is stated for text made of a leading text and any number of (link, following text) segments. It requires that no text contains `[` or `_`, that each text before a link is empty or ends in whitespace, `)` or `]`, that no link contains a placeholder, and that every link has a usable url (a link with an unusable url is covered by Markdown.ProtectInvalidLink). When a text before a link ends in a URL character, the original code leaks a placeholder; see "Findings".
- Markdown.MarkdownIdempotent: it is proved for a leading text followed by bare URLs, each followed by a text. Each such text is non-empty, starts and ends in whitespace, `)` or `]`, and holds no `[`, no `_` and no URL. Content that already mixes written links with bare URLs is not covered.
- IsoWeek.WeekNumber and IsoWeek.GetWeekDates: `Date.UTC(y, …)` (script.js:933, 935) and `new Date(y, 0, …)` (script.js:941, 945) read a year from 0 to 99 as 1900 + y. The model takes every year as written. So for years 0 to 99 the model gives the weeks of year y, where the page computes those of 1900 + y. The week number comes from `parseInt` (script.js:902), which is inexact for week strings of more than about 15 digits; the model reads them as an exact `nat`.
- DateInfo.ParseDate: a `YYYY-MM-DD` text whose day is 01 to 31 but past the end of its month is invalid in the model. V8 (Chrome, Node) accepts it and rolls the extra days into the next month, so `2025-02-30` becomes 2 March 2025. DateInfo.ParseIdToDateInfo and DateInfo.InvalidDates inherit this choice. An id such as `2025-9_2025-02-28_2025-02-30` gets "Fecha inválida" in the model but a real range label in V8. A record with such a start date is undated in the model, so Filter drops it, while the page shows it.
- DateInfo.ParseIdToDateInfo: the `typeof idString !== 'string'` guard is not modelled, because the only input is a string.
- Filter.FilterRecords: the `try`/`catch` is not modelled, because the modelled predicate cannot throw.
- Filter: the month and week options are values, not generated `<option>` HTML.
- `renderCards`, the modal, audio players, `generateMediaEmbed` and `getYouTubeID` only produce presentation, and are not part of this model.

## Findings

| source | as written | input that shows it | evidently intended | confidence | as-written member | corrected member |
|---|---|---|---|---|---|---|
| script.js:568-588 | The link placeholder `__LINK_PLACEHOLDER_n__` is made of URL characters. A bare URL directly before a link therefore swallows the placeholder into its `[u](u)` wrap. Restoring replaces only the first copy, so a literal placeholder is left in the output. | `http://x[a](b)` becomes `[http://x[a](b)](http://x__LINK_PLACEHOLDER_0__)` | Links are restored verbatim, and no placeholder survives: `[http://x](http://x)[a](b)` | not executed | Markdown.PlaceholderLeaks | Markdown.FixedNoLeak |
| script.js:41-45 | The colour-scheme listener re-applies the theme only when `localStorage` holds `system`. With nothing stored, the page shows the system theme (script.js:37), but it ignores later changes of the system preference. | Nothing stored; the page loads under a light scheme, then the system switches to dark; the page stays light | Follow the system whenever the theme in effect is `system` | not executed | Theme.DefaultIgnoresSchemeChange | Theme.AfterSchemeChangeFixed |
