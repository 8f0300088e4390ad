/** `generateTableOfContents`: the headings of the rendered content, in
    document order, are given the anchors `heading-0`, `heading-1`, … and a
    navigation block lists them, each indented by 0.75rem per level below 1.
    The headings are given as an array of (level, text, id) records in place
    of the parsed HTML. */
module Toc {
  import opened Text

  /** The digit of an `h1` … `h6` tag. */
  type Level = l: int | 1 <= l <= 6 witness 1

  /** One `h1` … `h6` element: the digit of its tag, its text and its id. */
  datatype Heading = Heading(level: Level, text: string, id: string)

  const Notice: string := "<p class=\"text-slate-500 dark:text-slate-400 italic\">No se encontraron t\U{ED}tulos en el contenido.</p>"
  const NavOpen: string := "<nav class=\"space-y-2\">"
  const NavClose: string := "</nav>"

  /** `heading-${index}`. */
  function HeadingId(i: nat): string {
    "heading-" + NatToString(i)
  }

  /** Different positions get different anchors. */
  lemma HeadingIdInjective(i: nat, j: nat)
    requires HeadingId(i) == HeadingId(j)
    ensures i == j
  {
    assert HeadingId(i)[8..] == NatToString(i);
    assert HeadingId(j)[8..] == NatToString(j);
    NatToStringInjective(i, j);
  }

  /** `${(level - 1) * 0.75}`: the indent in quarters of a rem written as a
      JavaScript number, with no fraction digits for whole values. */
  function IndentText(level: Level): string {
    var q := (level - 1) * 3;
    NatToString(q / 4) + (if q % 4 == 1 then ".25" else if q % 4 == 2 then ".5" else if q % 4 == 3 then ".75" else "")
  }

  /** The indents of the six heading levels. */
  lemma IndentValues()
    ensures IndentText(1) == "0" && IndentText(2) == "0.75" && IndentText(3) == "1.5"
    ensures IndentText(4) == "2.25" && IndentText(5) == "3" && IndentText(6) == "3.75"
  {
    assert NatToString(0) == "0";
    assert NatToString(1) == "1";
    assert NatToString(2) == "2";
    assert NatToString(3) == "3";
  }

  /** The fixed parts of the link template. */
  const LinkHref: string := "\n            <a href=\"#"
  const LinkClass: string := "\" \n               class=\"block text-sm hover:text-amber-600 dark:hover:text-amber-400 transition-colors py-1 px-2 hover:bg-slate-100 dark:hover:bg-slate-700 rounded\"\n"
  const LinkStyle: string := "               style=\"margin-left: "
  const LinkData: string := "rem;\"\n               data-heading-id=\""
  const LinkText: string := "\">\n                "
  const LinkClose: string := "\n            </a>\n        "

  /** The link the loop appends for the heading at `index`. */
  function TocLink(index: nat, h: Heading): string {
    LinkHref + HeadingId(index) + LinkClass + LinkStyle + IndentText(h.level) + LinkData
    + HeadingId(index) + LinkText + Trim(h.text) + LinkClose
  }

  /** `f(0, xs[0]) + f(1, xs[1]) + …`: the text a loop appending `f(index,
      x)` for every element `x` at `index` builds. */
  function Concat<T>(f: (nat, T) -> string, xs: seq<T>): string {
    if xs == [] then [] else Concat(f, xs[..|xs| - 1]) + f(|xs| - 1, xs[|xs| - 1])
  }

  /** The text for the first `i + 1` elements is the text for the first `i`
      followed by the `i`-th element's part. */
  lemma ConcatStep<T>(f: (nat, T) -> string, xs: seq<T>, i: nat)
    requires i < |xs|
    ensures Concat(f, xs[..i + 1]) == Concat(f, xs[..i]) + f(i, xs[i])
  {
    assert xs[..i + 1][..i] == xs[..i];
  }

  /** The `i`-th element's part follows the parts of the elements before it
      and starts the rest of the text. */
  lemma {:induction false} ConcatAt<T>(f: (nat, T) -> string, xs: seq<T>, i: nat)
    requires i < |xs|
    ensures Concat(f, xs[..i]) + f(i, xs[i]) <= Concat(f, xs)
  {
    var n := |xs| - 1;
    if i < n {
      var init := xs[..n];
      assert init[..i] == xs[..i] && init[i] == xs[i];
      ConcatAt(f, init, i);
      var p := Concat(f, xs[..i]) + f(i, xs[i]);
      assert Concat(f, xs)[..|p|] == Concat(f, init)[..|p|];
    } else {
      assert xs[..n] == xs[..i];
    }
  }

  /** The links of the headings in document order. */
  function TocLinks(hs: seq<Heading>): string {
    Concat(TocLink, hs)
  }

  /** The `i`-th heading's link, with anchor `heading-i` and its level's
      indent, follows the links of the headings before it in the block. */
  lemma TocLinksAt(hs: seq<Heading>, i: nat)
    requires i < |hs|
    ensures TocLinks(hs[..i]) + TocLink(i, hs[i]) <= TocLinks(hs)
  {
    ConcatAt(TocLink, hs, i);
  }

  /** The anchor ids of `forEach`: the heading at position `index` gets
      `heading-index`, and nothing else about the headings changes. */
  method AssignIds(headings: array<Heading>)
    modifies headings
    ensures forall i | 0 <= i < headings.Length :: headings[i] == old(headings[i]).(id := HeadingId(i))
  {
    var index := 0;
    while index < headings.Length
      invariant 0 <= index <= headings.Length
      invariant forall j | 0 <= j < index :: headings[j] == old(headings[j]).(id := HeadingId(j))
      invariant forall j | index <= j < headings.Length :: headings[j] == old(headings[j])
    {
      headings[index] := headings[index].(id := HeadingId(index));
      index := index + 1;
    }
  }

  /** The links `forEach` appends to `tocHtml`, one per heading in order. */
  method LinksHtml(hs: seq<Heading>) returns (links: string)
    ensures links == TocLinks(hs)
  {
    links := [];
    var index := 0;
    while index < |hs|
      invariant 0 <= index <= |hs|
      invariant links == TocLinks(hs[..index])
    {
      ConcatStep(TocLink, hs, index);
      links := links + TocLink(index, hs[index]);
      index := index + 1;
    }
    assert hs[..index] == hs;
  }

  /** `generateTableOfContents(htmlContent)` over the content's headings: the
      notice when there are none; otherwise each heading gets its anchor id
      and the navigation block lists them. */
  method GenerateTableOfContents(headings: array<Heading>) returns (toc: string)
    modifies headings
    ensures headings.Length == 0 ==> toc == Notice
    ensures headings.Length > 0 ==> toc == NavOpen + TocLinks(old(headings[..])) + NavClose
    ensures forall i | 0 <= i < headings.Length :: headings[i] == old(headings[i]).(id := HeadingId(i))
  {
    if headings.Length == 0 {
      return Notice;
    }
    var links := LinksHtml(headings[..]);
    AssignIds(headings);
    toc := NavOpen + links + NavClose;
  }
}
