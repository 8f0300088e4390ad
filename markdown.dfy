/** `processMarkdownContent`: existing `[text](url)` links are set aside
    behind numbered placeholders (or reduced to their text when the url is
    unusable), bare `http://` / `https://` URLs are turned into links
    `[u](u)`, and the placeholders are replaced by the original links again.
    Each regular expression is modelled by the match it finds at a position
    and a left-to-right scan, as a global `replace` performs it. */
module Markdown {
  import opened Text

  // ----- protecting existing links: /\[([^\]]*)\]\(([^)]*)\)/g -----

  /** The index of the first `c` in `s`, or `|s|`. */
  function Find(s: string, c: char): (i: nat)
    ensures i <= |s| && c !in s[..i] && (i < |s| ==> s[i] == c)
  {
    if s == [] then 0
    else if s[0] == c then 0
    else
      var i := 1 + Find(s[1..], c);
      assert s[..i] == [s[0]] + s[1..][..i - 1];
      i
  }

  /** How a link is written. */
  function LinkText(text: string, url: string): string {
    "[" + text + "](" + url + ")"
  }

  /** A match of the link pattern: the two groups and the match's length. */
  datatype LinkAt = LinkAt(text: string, url: string, len: nat)

  /** The match of the link pattern at the start of `s`. `[^\]]*` cannot
      step over a `]`, so the text ends at the first `]`, and likewise the
      url at the first `)`; the match is that one or none. */
  function LinkMatch(s: string): (r: Option<LinkAt>)
    ensures r.Some? ==> 4 <= r.value.len <= |s| && s[..r.value.len] == LinkText(r.value.text, r.value.url)
                        && ']' !in r.value.text && ')' !in r.value.url
  {
    if s == [] || s[0] != '[' then None
    else
      var body := s[1..];
      var i := Find(body, ']');
      if i + 1 < |body| && body[i + 1] == '(' then
        var tail := body[i + 2..];
        var j := Find(tail, ')');
        if j < |tail| then
          LinkShape(s, i, j);
          Some(LinkAt(body[..i], tail[..j], i + j + 4))
        else None
      else None
  }

  lemma LinkShape(s: string, i: nat, j: nat)
    requires |s| >= 1 && i + 1 < |s[1..]| && j < |s[1..][i + 2..]|
    requires s[0] == '[' && s[1..][i] == ']' && s[1..][i + 1] == '(' && s[1..][i + 2..][j] == ')'
    ensures s[..i + j + 4] == LinkText(s[1..][..i], s[1..][i + 2..][..j])
  {
    var t, u := s[1..][..i], s[1..][i + 2..][..j];
    assert s[..i + j + 4] == ['['] + t + [']', '('] + u + [')'];
  }

  /** The url test of the replacement callback:
      `!url || url.trim() === '' || url === 'undefined'` rejects the url. */
  predicate ValidUrl(url: string) {
    !(url == [] || Trim(url) == [] || url == "undefined")
  }

  /** `__LINK_PLACEHOLDER_${n}__`. */
  function Placeholder(n: nat): (p: string)
    ensures |p| > 0 && p[0] == '_' && 'h' !in p
  {
    "__LINK_PLACEHOLDER_" + NatToString(n) + "__"
  }

  /** One entry of `linkPlaceholders`. */
  datatype Entry = Entry(placeholder: string, link: string)

  /** The text after the first `replace` and the entries set in the map, in
      insertion order. */
  datatype Protected = Protected(text: string, links: seq<Entry>)

  /** The first `replace`: the scan from position 0 with `placeholderCounter`
      at `n`. A link with a valid url becomes the next placeholder and its
      source text is stored; a link with an unusable url becomes its text. */
  function Protect(s: string, n: nat): (p: Protected)
    decreases |s|
  {
    if s == [] then Protected([], [])
    else
      match LinkMatch(s)
      case Some(m) =>
        var rest := Protect(s[m.len..], if ValidUrl(m.url) then n + 1 else n);
        if ValidUrl(m.url) then
          Protected(Placeholder(n) + rest.text, [Entry(Placeholder(n), s[..m.len])] + rest.links)
        else Protected(m.text + rest.text, rest.links)
      case None =>
        var rest := Protect(s[1..], n);
        Protected([s[0]] + rest.text, rest.links)
  }

  // ----- autolinking: /https?:\/\/[^\s\)\]]+/g -----

  /** A character `[^\s\)\]]` accepts. */
  predicate UrlChar(c: char) {
    !IsWhitespace(c) && c != ')' && c != ']'
  }

  /** The longest prefix of URL characters. */
  function RunLength(s: string): (n: nat)
    ensures n <= |s| && (n < |s| ==> !UrlChar(s[n]))
    ensures forall k | 0 <= k < n :: UrlChar(s[k])
  {
    if s == [] || !UrlChar(s[0]) then 0 else 1 + RunLength(s[1..])
  }

  /** The length of the URL pattern's match at the start of `s`, 0 for none:
      the scheme followed by at least one URL character, as many as there
      are. */
  function UrlMatch(s: string): (n: nat)
    ensures n <= |s|
    ensures n > 0 ==> s[0] == 'h' && n >= 8
  {
    if StartsWith(s, "https://") && RunLength(s[8..]) > 0 then 8 + RunLength(s[8..])
    else if StartsWith(s, "http://") && RunLength(s[7..]) > 0 then 7 + RunLength(s[7..])
    else 0
  }

  /** The second `replace`: every match `m`, scanning from the left, becomes
      `[m](m)`. */
  function Autolink(s: string): string
    decreases |s|
  {
    if s == [] then []
    else
      var n := UrlMatch(s);
      if n > 0 then "[" + s[..n] + "](" + s[..n] + ")" + Autolink(s[n..])
      else [s[0]] + Autolink(s[1..])
  }

  // ----- restoring the placeholders -----

  /** The first position at or after `i` where `p` occurs in `s`. */
  function FirstOccurrence(s: string, p: string, i: nat): (r: Option<nat>)
    requires i <= |s| + 1
    ensures r.Some? ==> i <= r.value && OccursAt(s, p, r.value)
                        && forall j | i <= j < r.value :: !OccursAt(s, p, j)
    ensures r.None? ==> forall j | i <= j :: !OccursAt(s, p, j)
    decreases |s| + 1 - i
  {
    if i + |p| > |s| then None
    else if OccursAt(s, p, i) then Some(i)
    else FirstOccurrence(s, p, i + 1)
  }

  /** `s.replace(p, r)` with a string pattern: only the first occurrence is
      replaced (the `$` patterns of the replacement are not modelled). */
  function ReplaceFirst(s: string, p: string, r: string): string {
    match FirstOccurrence(s, p, 0)
    case None => s
    case Some(k) => s[..k] + r + s[k + |p|..]
  }

  /** `processed` after the `forEach` has handled the first `|links|`
      entries. */
  function RestoreAll(s: string, links: seq<Entry>): string {
    if links == [] then s
    else
      var last := links[|links| - 1];
      ReplaceFirst(RestoreAll(s, links[..|links| - 1]), last.placeholder, last.link)
  }

  /** `linkPlaceholders.forEach((originalLink, placeholder) => …)`, in
      insertion order. */
  method Restore(processed: string, links: seq<Entry>) returns (r: string)
    ensures r == RestoreAll(processed, links)
  {
    r := processed;
    var i := 0;
    while i < |links|
      invariant 0 <= i <= |links|
      invariant r == RestoreAll(processed, links[..i])
    {
      assert links[..i + 1][..i] == links[..i];
      r := ReplaceFirst(r, links[i].placeholder, links[i].link);
      i := i + 1;
    }
    assert links[..i] == links;
  }

  /** What `processMarkdownContent` returns, as the code computes it. */
  function MarkdownContent(content: string): string {
    if content == [] then []
    else
      var p := Protect(content, 0);
      RestoreAll(Autolink(p.text), p.links)
  }

  /** `processMarkdownContent(content)`. */
  method ProcessMarkdownContent(content: string) returns (r: string)
    ensures r == MarkdownContent(content)
    ensures content == [] ==> r == []
  {
    if content == [] {
      return [];
    }
    var p := Protect(content, 0);
    var processed := Autolink(p.text);
    r := Restore(processed, p.links);
  }

  // ----- what the rewriting does -----

  lemma FindIs(x: string, c: char, i: nat)
    requires i < |x| && x[i] == c && c !in x[..i]
    ensures Find(x, c) == i
  {
  }

  /** A written link is matched as a whole, with its text and url as the groups. */
  lemma LinkMatchOf(t: string, u: string, rest: string)
    requires ']' !in t && ')' !in u
    ensures LinkMatch(LinkText(t, u) + rest) == Some(LinkAt(t, u, |t| + |u| + 4))
  {
    LinkTextSplit(t, u, rest);
    LinkMatchParts(t, u, rest);
  }

  lemma LinkTextSplit(t: string, u: string, rest: string)
    ensures LinkText(t, u) + rest == ['['] + (t + [']'] + (['('] + (u + [')'] + rest)))
  {
  }

  /** The match of a `[` followed by the text, `](`, the url and `)`. */
  lemma LinkMatchParts(t: string, u: string, rest: string)
    requires ']' !in t && ')' !in u
    ensures LinkMatch(['['] + (t + [']'] + (['('] + (u + [')'] + rest)))) == Some(LinkAt(t, u, |t| + |u| + 4))
  {
    var w := u + [')'] + rest;
    var body := t + [']'] + (['('] + w);
    assert (['['] + body)[1..] == body;
    assert Find(body, ']') == |t| && body[|t| + 1] == '(' && body[|t| + 2..] == w && body[..|t|] == t by {
      AroundChar(t, ']', ['('] + w);
      FindIs(body, ']', |t|);
    }
    assert Find(w, ')') == |u| && w[..|u|] == u by {
      AroundChar(u, ')', rest);
      FindIs(w, ')', |u|);
    }
  }

  /** The parts of `x + [c] + y`. */
  lemma AroundChar(x: string, c: char, y: string)
    ensures (x + [c] + y)[..|x|] == x && (x + [c] + y)[|x|] == c
    ensures (x + [c] + y)[|x| + 1..] == y
  {
  }

  /** Text without `[` passes the first `replace` unchanged. */
  lemma {:induction false} ProtectPlain(a: string, rest: string, n: nat)
    requires '[' !in a
    ensures Protect(a + rest, n) == Protected(a + Protect(rest, n).text, Protect(rest, n).links)
  {
    if a == [] {
      AppendEmpty(rest);
      AppendEmpty(Protect(rest, n).text);
    } else {
      DropPrefix([a[0]], a[1..] + rest);
      SeqCons(a);
      Associative([a[0]], a[1..], rest);
      ProtectPlain(a[1..], rest, n);
      Associative([a[0]], a[1..], Protect(rest, n).text);
    }
  }

  /** A link with a valid url becomes placeholder `n` and is stored as it
      was written. */
  lemma ProtectValidLink(t: string, u: string, rest: string, n: nat)
    requires ']' !in t && ')' !in u && ValidUrl(u)
    ensures Protect(LinkText(t, u) + rest, n)
         == Protected(Placeholder(n) + Protect(rest, n + 1).text,
                      [Entry(Placeholder(n), LinkText(t, u))] + Protect(rest, n + 1).links)
  {
    LinkMatchOf(t, u, rest);
    DropPrefix(LinkText(t, u), rest);
  }

  /** A link whose url is empty, blank or `undefined` is replaced by its text
      and stores nothing. */
  lemma ProtectInvalidLink(t: string, u: string, rest: string, n: nat)
    requires ']' !in t && ')' !in u && !ValidUrl(u)
    ensures Protect(LinkText(t, u) + rest, n) == Protected(t + Protect(rest, n).text, Protect(rest, n).links)
  {
    LinkMatchOf(t, u, rest);
    DropPrefix(LinkText(t, u), rest);
  }

  /** Text without an `h` holds no URL; it is copied as it is. */
  lemma {:induction false} AutolinkNoScheme(x: string, y: string)
    requires 'h' !in x
    ensures Autolink(x + y) == x + Autolink(y)
  {
    if x == [] {
      AppendEmpty(y);
      AppendEmpty(Autolink(y));
    } else {
      DropPrefix([x[0]], x[1..] + y);
      SeqCons(x);
      Associative([x[0]], x[1..], y);
      AutolinkNoScheme(x[1..], y);
      Associative([x[0]], x[1..], Autolink(y));
    }
  }

  /** A URL (scheme and a run of URL characters) followed by a character that
      ends the run, or by nothing, is wrapped as `[u](u)`. */
  lemma AutolinkWrap(scheme: string, run: string, c: string)
    requires scheme == "http://" || scheme == "https://"
    requires run != [] && forall k | 0 <= k < |run| :: UrlChar(run[k])
    requires c == [] || !UrlChar(c[0])
    ensures Autolink(scheme + run + c) == "[" + (scheme + run) + "](" + (scheme + run) + ")" + Autolink(c)
  {
    var s := scheme + run + c;
    var u := scheme + run;
    RunLengthExact(run, c);
    Associative(scheme, run, c);
    SchemeMatch(scheme, run + c);
    DropPrefix(u, c);
    assert s[..|u|] == u;
  }

  /** A scheme followed by a non-empty run of URL characters matches up to
      the end of the run. */
  lemma SchemeMatch(scheme: string, rest: string)
    requires scheme == "http://" || scheme == "https://"
    requires RunLength(rest) > 0
    ensures UrlMatch(scheme + rest) == |scheme| + RunLength(rest)
  {
    var s := scheme + rest;
    StartsWithAppend(scheme, rest);
    if |scheme| == 7 {
      StartsWithAt(s, "https://", 4);
      StartsWithAt(s, scheme, 4);
    }
  }

  lemma {:induction false} RunLengthExact(run: string, c: string)
    requires forall k | 0 <= k < |run| :: UrlChar(run[k])
    requires c == [] || !UrlChar(c[0])
    ensures RunLength(run + c) == |run|
  {
    if run == [] {
      AppendEmpty(c);
    } else {
      DropPrefix([run[0]], run[1..] + c);
      SeqCons(run);
      Associative([run[0]], run[1..], c);
      RunLengthExact(run[1..], c);
    }
  }

  /** A run of URL characters cannot step over a character that ends it. */
  lemma {:induction false} RunLengthStop(a: string, b: string)
    requires a != [] && !UrlChar(a[|a| - 1])
    ensures RunLength(a + b) == RunLength(a) < |a|
  {
    if UrlChar(a[0]) {
      DropPrefix([a[0]], a[1..] + b);
      SeqCons(a);
      Associative([a[0]], a[1..], b);
      RunLengthStop(a[1..], b);
    }
  }

  /** The URL match at the start of `a + b` lies within `a` when `a` ends in
      a character that ends URLs. */
  lemma UrlMatchStop(a: string, b: string)
    requires a != [] && !UrlChar(a[|a| - 1])
    ensures UrlMatch(a + b) == UrlMatch(a) < |a| || UrlMatch(a + b) == UrlMatch(a) == 0
  {
    if |a| > 8 {
      UrlMatchStopLong(a, b);
    } else {
      UrlMatchStopShort(a, b);
    }
  }

  lemma UrlMatchStopLong(a: string, b: string)
    requires |a| > 8 && !UrlChar(a[|a| - 1])
    ensures UrlMatch(a + b) == UrlMatch(a) < |a|
  {
    var s := a + b;
    StartsWithLonger(a, b, "https://");
    StartsWithLonger(a, b, "http://");
    assert s[8..] == a[8..] + b;
    assert s[7..] == a[7..] + b;
    RunLengthStop(a[8..], b);
    RunLengthStop(a[7..], b);
  }

  lemma UrlMatchStopShort(a: string, b: string)
    requires a != [] && |a| <= 8 && !UrlChar(a[|a| - 1])
    ensures UrlMatch(a + b) == UrlMatch(a) == 0
  {
    var s := a + b;
    StartsWithAt(s, "https://", |a| - 1);
    assert s[|a| - 1] == a[|a| - 1];
    if |a| <= 7 {
      StartsWithAt(s, "http://", |a| - 1);
    } else if StartsWith(s, "http://") {
      assert s[7..] == a[7..] + b;
      RunLengthStop(a[7..], b);
    }
  }

  /** Text that ends in whitespace, `)` or `]` is autolinked on its own: no
      URL reaches from it into what follows. */
  lemma {:induction false} AutolinkStop(a: string, b: string)
    requires a != [] && !UrlChar(a[|a| - 1])
    ensures Autolink(a + b) == Autolink(a) + Autolink(b)
    decreases |a|
  {
    UrlMatchStop(a, b);
    var n := UrlMatch(a);
    if n > 0 {
      AutolinkStop(a[n..], b);
      StopAfterMatch(a, b, n);
    } else if |a| == 1 {
      StopLast(a, b);
    } else {
      AutolinkStop(a[1..], b);
      StopAfterChar(a, b);
    }
  }

  /** One step of `Autolink` at a URL of length `n`. */
  lemma MatchUnfold(s: string, n: nat)
    requires s != [] && UrlMatch(s) == n && n > 0
    ensures Autolink(s) == "[" + s[..n] + "](" + s[..n] + ")" + Autolink(s[n..])
  {
  }

  /** One step of `Autolink` at a character no URL starts at. */
  lemma CharUnfold(s: string)
    requires s != [] && UrlMatch(s) == 0
    ensures Autolink(s) == [s[0]] + Autolink(s[1..])
  {
  }

  /**
   * One step of a left-to-right rewriting `f` that consumes the first `k`
   * characters of `a` into `w` in the same way whether or not `b` follows.
   */
  lemma StepGlue(f: string -> string, a: string, b: string, k: nat, w: string)
    requires 0 < k < |a|
    requires f(a + b) == w + f((a + b)[k..])
    requires f(a) == w + f(a[k..])
    requires f(a[k..] + b) == f(a[k..]) + f(b)
    ensures f(a + b) == f(a) + f(b)
  {
    assert (a + b)[k..] == a[k..] + b;
    Associative(w, f(a[k..]), f(b));
  }

  /** A URL match that ends inside `a`. */
  lemma StopAfterMatch(a: string, b: string, n: nat)
    requires 0 < n < |a| && UrlMatch(a + b) == UrlMatch(a) == n
    requires Autolink(a[n..] + b) == Autolink(a[n..]) + Autolink(b)
    ensures Autolink(a + b) == Autolink(a) + Autolink(b)
  {
    MatchUnfold(a + b, n);
    MatchUnfold(a, n);
    assert (a + b)[..n] == a[..n];
    StepGlue(Autolink, a, b, n, "[" + a[..n] + "](" + a[..n] + ")");
  }

  /** The last character of `a`, which no URL starts at. */
  lemma StopLast(a: string, b: string)
    requires |a| == 1 && UrlMatch(a + b) == UrlMatch(a) == 0
    ensures Autolink(a + b) == Autolink(a) + Autolink(b)
  {
    var s := a + b;
    assert s[1..] == b;
    assert a[1..] == [];
    assert Autolink(a) == [a[0]] + Autolink([]);
  }

  /** A character of `a` that no URL starts at. */
  lemma StopAfterChar(a: string, b: string)
    requires |a| > 1 && UrlMatch(a + b) == UrlMatch(a) == 0
    requires Autolink(a[1..] + b) == Autolink(a[1..]) + Autolink(b)
    ensures Autolink(a + b) == Autolink(a) + Autolink(b)
  {
    CharUnfold(a + b);
    CharUnfold(a);
    assert (a + b)[0] == a[0];
    StepGlue(Autolink, a, b, 1, [a[0]]);
  }

  /** Autolinking adds only brackets and parentheses. */
  lemma {:induction false} AutolinkKeepsOut(a: string)
    requires '_' !in a
    ensures '_' !in Autolink(a)
    decreases |a|
  {
    if a != [] {
      var n := UrlMatch(a);
      if n > 0 {
        assert '_' !in a[..n] && '_' !in a[n..];
        AutolinkKeepsOut(a[n..]);
      } else {
        assert '_' !in a[1..];
        AutolinkKeepsOut(a[1..]);
      }
    }
  }

  /** The placeholder's first occurrence is where it was put when nothing
      before it holds an `_`. */
  lemma ReplaceAt(x: string, p: string, y: string, r: string)
    requires p != [] && p[0] !in x
    ensures ReplaceFirst(x + p + y, p, r) == x + r + y
  {
    var s := x + p + y;
    assert OccursAt(s, p, |x|);
    forall j | 0 <= j < |x|
      ensures !OccursAt(s, p, j)
    {
      assert s[j] == x[j];
    }
    var k := FirstOccurrence(s, p, 0).value;
    assert k == |x|;
    assert s[..k] == x;
    assert s[k + |p|..] == y;
  }

  lemma RestoreOne(s: string, e: Entry)
    ensures RestoreAll(s, [e]) == ReplaceFirst(s, e.placeholder, e.link)
  {
    assert [e][..0] == [];
  }

  /** Content without links is only autolinked. */
  lemma NoLinks(s: string)
    requires '[' !in s
    ensures MarkdownContent(s) == Autolink(s)
  {
    ProtectNone(s, 0);
  }

  lemma ProtectAround(a: string, t: string, u: string, c: string)
    requires '[' !in a && '[' !in c && ']' !in t && ')' !in u && ValidUrl(u)
    ensures Protect(a + LinkText(t, u) + c, 0)
         == Protected(a + (Placeholder(0) + c), [Entry(Placeholder(0), LinkText(t, u))])
  {
    var l := LinkText(t, u);
    Associative(a, l, c);
    ProtectLinkPlain(t, u, c, 0);
    ProtectPlain(a, l + c, 0);
  }

  lemma ProtectLinkPlain(t: string, u: string, c: string, n: nat)
    requires '[' !in c && ']' !in t && ')' !in u && ValidUrl(u)
    ensures Protect(LinkText(t, u) + c, n) == Protected(Placeholder(n) + c, [Entry(Placeholder(n), LinkText(t, u))])
  {
    ProtectNone(c, n + 1);
    ProtectValidLink(t, u, c, n);
    AppendEmpty([Entry(Placeholder(n), LinkText(t, u))]);
  }

  /** Text without `[` is left as it is and stores nothing. */
  lemma ProtectNone(c: string, n: nat)
    requires '[' !in c
    ensures Protect(c, n) == Protected(c, [])
  {
    ProtectPlain(c, [], n);
    AppendEmpty(c);
  }

  lemma MarkdownOf(content: string, text: string, links: seq<Entry>)
    requires content != [] && Protect(content, 0) == Protected(text, links)
    ensures MarkdownContent(content) == RestoreAll(Autolink(text), links)
  {
  }

  lemma AutolinkParts(a: string, p0: string, c: string)
    requires a == [] || !UrlChar(a[|a| - 1])
    requires 'h' !in p0
    ensures Autolink(a + (p0 + c)) == Autolink(a) + p0 + Autolink(c)
  {
    AutolinkNoScheme(p0, c);
    if a == [] {
      AppendEmpty(p0 + c);
      AppendEmpty(p0 + Autolink(c));
    } else {
      AutolinkStop(a, p0 + c);
    }
    Associative(Autolink(a), p0, Autolink(c));
  }

  // ----- a URL written just before a link swallows the placeholder -----

  /** Every character of a placeholder is one a URL run goes through. */
  lemma PlaceholderUrlChars(n: nat)
    ensures forall k | 0 <= k < |Placeholder(n)| :: UrlChar(Placeholder(n)[k])
    ensures '[' !in Placeholder(n) && ')' !in Placeholder(n)
  {
    var d := NatToString(n);
    var p := Placeholder(n);
    assert forall k | 0 <= k < |d| :: IsDigit(d[k]);
    forall k | 0 <= k < |p|
      ensures UrlChar(p[k]) && p[k] != '['
    {
      if 19 <= k < 19 + |d| {
        assert p[k] == d[k - 19];
      }
    }
  }

  /** As written: when a bare URL runs straight into a link, as in
      `http://x[a](b)`, the URL's match takes in the link's placeholder, the
      wrapped URL holds the placeholder twice, only the first is restored,
      and the output keeps a literal `__LINK_PLACEHOLDER_0__`. */
  lemma PlaceholderLeaks(scheme: string, r: string, t: string, u: string)
    requires scheme == "http://" || scheme == "https://"
    requires r != [] && '[' !in r && '_' !in r && forall k | 0 <= k < |r| :: UrlChar(r[k])
    requires ']' !in t && ')' !in u && ValidUrl(u)
    ensures MarkdownContent(scheme + r + LinkText(t, u))
         == "[" + (scheme + r) + LinkText(t, u) + "](" + (scheme + r) + Placeholder(0) + ")"
    ensures Contains(MarkdownContent(scheme + r + LinkText(t, u)), Placeholder(0))
  {
    var a := scheme + r;
    var l := LinkText(t, u);
    LeakProtect(a, t, u);
    PlaceholderUrlChars(0);
    LeakChain(scheme, r, l, Placeholder(0));
  }

  /** The autolink and restore steps of the leak for any placeholder made of
      URL characters that starts with `_`. */
  lemma LeakChain(scheme: string, r: string, l: string, p: string)
    requires scheme == "http://" || scheme == "https://"
    requires r != [] && '_' !in r && forall k | 0 <= k < |r| :: UrlChar(r[k])
    requires p != [] && p[0] == '_' && forall k | 0 <= k < |p| :: UrlChar(p[k])
    requires Protect(scheme + r + l, 0) == Protected(scheme + r + p, [Entry(p, l)])
    ensures MarkdownContent(scheme + r + l) == "[" + (scheme + r) + l + "](" + (scheme + r) + p + ")"
    ensures Contains("[" + (scheme + r) + l + "](" + (scheme + r) + p + ")", p)
  {
    var a := scheme + r;
    MarkdownOf(a + l, a + p, [Entry(p, l)]);
    LeakAutolink(scheme, r, p);
    RestoreOne(Autolink(a + p), Entry(p, l));
    LeakRestore(a, p, l);
  }

  lemma LeakProtect(a: string, t: string, u: string)
    requires '[' !in a && ']' !in t && ')' !in u && ValidUrl(u)
    ensures Protect(a + LinkText(t, u), 0) == Protected(a + Placeholder(0), [Entry(Placeholder(0), LinkText(t, u))])
  {
    ProtectAround(a, t, u, []);
    AppendEmpty(a + LinkText(t, u));
    AppendEmpty(Placeholder(0));
  }

  lemma LeakAutolink(scheme: string, r: string, p: string)
    requires scheme == "http://" || scheme == "https://"
    requires r != [] && forall k | 0 <= k < |r| :: UrlChar(r[k])
    requires forall k | 0 <= k < |p| :: UrlChar(p[k])
    ensures Autolink(scheme + r + p) == "[" + (scheme + r + p) + "](" + (scheme + r + p) + ")"
  {
    var run := r + p;
    assert forall k | 0 <= k < |run| :: UrlChar(run[k]);
    AutolinkWrap(scheme, run, []);
    Associative(scheme, r, p);
    AppendEmpty(scheme + run);
    AppendEmpty(Autolink([]));
  }

  lemma LeakRestore(u: string, p: string, l: string)
    requires p != [] && p[0] == '_' && '_' !in u
    ensures ReplaceFirst("[" + (u + p) + "](" + (u + p) + ")", p, l) == "[" + u + l + "](" + u + p + ")"
    ensures Contains("[" + u + l + "](" + u + p + ")", p)
  {
    var x := "[" + u;
    var y := "](" + u + p + ")";
    WrappedAround(u, p);
    assert '_' !in x;
    ReplaceAt(x, p, y, l);
    var before := "[" + u + l + "](" + u;
    RestoredAround(u, l, p);
    OccursIn(before, p, ")");
  }

  lemma WrappedAround(u: string, p: string)
    ensures "[" + (u + p) + "](" + (u + p) + ")" == ("[" + u) + p + ("](" + u + p + ")")
  {
    Associative("[", u, p);
    Associative("[" + u + p, "](", u + p);
    Associative("[" + u + p + "](", u + p, ")");
    Associative("[" + u, p, "](" + u + p + ")");
    assert "](" + u + p + ")" == "](" + (u + p + ")") by {
      Associative("](", u, p);
      Associative("](", u + p, ")");
    }
  }

  lemma RestoredAround(u: string, l: string, p: string)
    ensures ("[" + u) + l + ("](" + u + p + ")") == "[" + u + l + "](" + u + p + ")"
    ensures "[" + u + l + "](" + u + p + ")" == ("[" + u + l + "](" + u) + p + ")"
  {
    var x := "[" + u + l;
    Associative(x, "](" + u, p);
    Associative(x, "](" + u + p, ")");
    Associative(x, "](", u);
  }

  lemma OccursIn(a: string, b: string, c: string)
    ensures Contains(a + b + c, b)
  {
    assert OccursAt(a + b + c, b, |a|);
  }

  /** The corrected rewriting: the text between kept links is autolinked on
      its own, so no URL match reaches into a link. `pending` holds the text
      since the last kept link, unusable links reduced to their text. */
  function RewriteLinks(s: string, pending: string): string
    decreases |s|
  {
    if s == [] then Autolink(pending)
    else
      match LinkMatch(s)
      case Some(m) =>
        if ValidUrl(m.url) then Autolink(pending) + s[..m.len] + RewriteLinks(s[m.len..], [])
        else RewriteLinks(s[m.len..], pending + m.text)
      case None => RewriteLinks(s[1..], pending + [s[0]])
  }

  /** `processMarkdownContent` as intended. */
  function MarkdownContentFixed(content: string): string {
    RewriteLinks(content, [])
  }

  lemma {:induction false} RewritePlain(a: string, rest: string, pending: string)
    requires '[' !in a
    ensures RewriteLinks(a + rest, pending) == RewriteLinks(rest, pending + a)
  {
    if a == [] {
      AppendEmpty(rest);
      AppendEmpty(pending);
    } else {
      DropPrefix([a[0]], a[1..] + rest);
      SeqCons(a);
      Associative([a[0]], a[1..], rest);
      RewritePlain(a[1..], rest, pending + [a[0]]);
      Associative(pending, [a[0]], a[1..]);
    }
  }

  lemma RewriteValidLink(t: string, u: string, rest: string, pending: string)
    requires ']' !in t && ')' !in u && ValidUrl(u)
    ensures RewriteLinks(LinkText(t, u) + rest, pending) == Autolink(pending) + LinkText(t, u) + RewriteLinks(rest, [])
  {
    LinkMatchOf(t, u, rest);
    DropPrefix(LinkText(t, u), rest);
  }

  /** An unusable link joins the surrounding text as its text alone. */
  lemma RewriteInvalidLink(t: string, u: string, rest: string, pending: string)
    requires ']' !in t && ')' !in u && !ValidUrl(u)
    ensures RewriteLinks(LinkText(t, u) + rest, pending) == RewriteLinks(rest, pending + t)
  {
    LinkMatchOf(t, u, rest);
    DropPrefix(LinkText(t, u), rest);
  }

  /** On text without links the two agree: both only autolink. */
  lemma FixedAgreesWithoutLinks(s: string)
    requires '[' !in s
    ensures MarkdownContentFixed(s) == MarkdownContent(s) == Autolink(s)
  {
    RewritePlain(s, [], []);
    AppendEmpty(s);
    NoLinks(s);
  }

  /** Corrected, on the input that leaks: the URL is wrapped up to the link
      and the link follows as written. */
  lemma FixedNoLeak(scheme: string, r: string, t: string, u: string)
    requires scheme == "http://" || scheme == "https://"
    requires r != [] && '[' !in r && forall k | 0 <= k < |r| :: UrlChar(r[k])
    requires ']' !in t && ')' !in u && ValidUrl(u)
    ensures MarkdownContentFixed(scheme + r + LinkText(t, u))
         == "[" + (scheme + r) + "](" + (scheme + r) + ")" + LinkText(t, u)
  {
    var a := scheme + r;
    var l := LinkText(t, u);
    assert '[' !in a;
    RewritePlain(a, l, []);
    AppendEmpty(a);
    AppendEmpty(l);
    RewriteValidLink(t, u, [], a);
    AppendEmpty(Autolink(a) + l);
    AutolinkWrap(scheme, r, []);
    AppendEmpty(a);
    AppendEmpty("[" + a + "](" + a + ")");
  }

  // ----- content with several links -----

  /** A link `[text](url)` and the text after it, up to the next link. */
  datatype Segment = Segment(text: string, url: string, after: string)

  function SegmentLink(g: Segment): string {
    LinkText(g.text, g.url)
  }

  /** The links and the text after each, as written. */
  function Written(gs: seq<Segment>): string {
    if gs == [] then [] else SegmentLink(gs[0]) + (gs[0].after + Written(gs[1..]))
  }

  /** The links as written, the text after each autolinked. */
  function Shown(gs: seq<Segment>): string {
    if gs == [] then [] else SegmentLink(gs[0]) + (Autolink(gs[0].after) + Shown(gs[1..]))
  }

  /** The first pass's text: the `i`-th link replaced by placeholder `n + i`. */
  function Holes(gs: seq<Segment>, n: nat): string {
    if gs == [] then [] else Placeholder(n) + (gs[0].after + Holes(gs[1..], n + 1))
  }

  /** The second pass's text: the placeholders, and the text autolinked. */
  function Filled(gs: seq<Segment>, n: nat): string {
    if gs == [] then [] else Placeholder(n) + (Autolink(gs[0].after) + Filled(gs[1..], n + 1))
  }

  /** The entries of `linkPlaceholders`, numbered from `n`. */
  function Stored(gs: seq<Segment>, n: nat): seq<Entry> {
    if gs == [] then [] else [Entry(Placeholder(n), SegmentLink(gs[0]))] + Stored(gs[1..], n + 1)
  }

  /** A link the first pass sets aside, followed by text without links. */
  predicate Protectable(g: Segment) {
    ']' !in g.text && ')' !in g.url && ValidUrl(g.url) && '[' !in g.after
  }

  /** Every segment's link is set aside by the first pass. */
  predicate AllProtectable(gs: seq<Segment>) {
    gs == [] || (Protectable(gs[0]) && AllProtectable(gs[1..]))
  }

  /** A link that holds no placeholder, followed by text without `_`. */
  ghost predicate Restorable(g: Segment) {
    '_' !in g.after && forall m: nat :: !Contains(SegmentLink(g), Placeholder(m))
  }

  /** No segment's link holds a placeholder, and no text after it an `_`. */
  ghost predicate AllRestorable(gs: seq<Segment>) {
    gs == [] || (Restorable(gs[0]) && AllRestorable(gs[1..]))
  }

  /** Every text that a link follows is empty or ends in whitespace, `)` or `]`. */
  predicate RunsEnd(a: string, gs: seq<Segment>)
    decreases |gs|
  {
    gs == [] || ((a == [] || !UrlChar(a[|a| - 1])) && RunsEnd(gs[0].after, gs[1..]))
  }

  /** The first pass replaces the links, in order, by consecutive placeholders. */
  lemma {:induction false} ProtectSegments(a: string, gs: seq<Segment>, n: nat)
    requires '[' !in a && AllProtectable(gs)
    ensures Protect(a + Written(gs), n) == Protected(a + Holes(gs, n), Stored(gs, n))
    decreases |gs|
  {
    if gs == [] {
      ProtectNone(a, n);
      AppendEmpty(a);
    } else {
      var r := gs[0].after + Written(gs[1..]);
      ProtectStep(a, gs[0], r, n);
      ProtectSegments(gs[0].after, gs[1..], n + 1);
    }
  }

  /** Text without `[` and one link: the link becomes placeholder `n`. */
  lemma ProtectStep(a: string, g: Segment, r: string, n: nat)
    requires '[' !in a && Protectable(g)
    ensures Protect(a + (SegmentLink(g) + r), n)
         == Protected(a + (Placeholder(n) + Protect(r, n + 1).text),
                      [Entry(Placeholder(n), SegmentLink(g))] + Protect(r, n + 1).links)
  {
    ProtectPlain(a, SegmentLink(g) + r, n);
    ProtectValidLink(g.text, g.url, r, n);
  }

  /** The second pass leaves the placeholders alone when no URL runs into them. */
  lemma {:induction false} AutolinkSegments(a: string, gs: seq<Segment>, n: nat)
    requires RunsEnd(a, gs)
    ensures Autolink(a + Holes(gs, n)) == Autolink(a) + Filled(gs, n)
    decreases |gs|
  {
    if gs == [] {
      AppendEmpty(a);
      AppendEmpty(Autolink(a));
    } else {
      var g := gs[0];
      var p := Placeholder(n);
      var c := g.after + Holes(gs[1..], n + 1);
      AutolinkParts(a, p, c);
      AutolinkSegments(g.after, gs[1..], n + 1);
      Associative(Autolink(a), p, Autolink(c));
    }
  }

  /** The `forEach` handles the first entry, then the others in order. */
  lemma {:induction false} RestoreFront(s: string, e: Entry, es: seq<Entry>)
    ensures RestoreAll(s, [e] + es) == RestoreAll(ReplaceFirst(s, e.placeholder, e.link), es)
    decreases |es|
  {
    if es == [] {
      AppendEmpty([e]);
      RestoreOne(s, e);
    } else {
      var init := es[..|es| - 1];
      assert ([e] + es)[..|es|] == [e] + init;
      assert ([e] + es)[|es|] == es[|es| - 1];
      RestoreFront(s, e, init);
    }
  }

  /** No placeholder occurs in `d`, and a `)` follows every `_` of `d`, so
      no occurrence of a placeholder can start inside `d`. */
  ghost predicate Sealed(d: string) {
    (forall m: nat :: !Contains(d, Placeholder(m)))
    && forall j | 0 <= j < |d| && d[j] == '_' :: ')' in d[j..]
  }

  /** A pattern that occurs in neither part, and not across the seam, does
      not occur in the concatenation. */
  lemma ConcatFree(x: string, y: string, p: string)
    requires !Contains(x, p) && !Contains(y, p)
    requires x == [] || y == [] || x[|x| - 1] !in p || y[0] !in p
    ensures !Contains(x + y, p)
  {
    var s := x + y;
    forall i | 0 <= i <= |s| - |p|
      ensures !OccursAt(s, p, i)
    {
      if i + |p| <= |x| {
        assert s[i..i + |p|] == x[i..i + |p|];
        assert !OccursAt(x, p, i);
      } else if i >= |x| {
        assert s[i..i + |p|] == y[i - |x|..i - |x| + |p|];
        assert !OccursAt(y, p, i - |x|);
      } else {
        assert s[i..i + |p|][|x| - 1 - i] == x[|x| - 1];
        assert s[i..i + |p|][|x| - i] == y[0];
      }
    }
  }

  /** A pattern whose first character is absent from `y` does not occur in it. */
  lemma NoStart(y: string, p: string)
    requires p != [] && p[0] !in y
    ensures !Contains(y, p)
  {
    forall i | 0 <= i <= |y| - |p|
      ensures !OccursAt(y, p, i)
    {
      assert y[i..i + |p|][0] == y[i];
    }
  }

  /** Text without `_` is sealed. */
  lemma SealedPlain(d: string)
    requires '_' !in d
    ensures Sealed(d)
  {
    forall m: nat
      ensures !Contains(d, Placeholder(m))
    {
      NoStart(d, Placeholder(m));
    }
  }

  /** No placeholder occurs in a sealed text followed by a bracketed piece
      without placeholders and by text without `_`. */
  lemma FreeJoin(d: string, l: string, a: string)
    requires forall m: nat :: !Contains(d, Placeholder(m))
    requires forall m: nat :: !Contains(l, Placeholder(m))
    requires l != [] && l[0] == '[' && l[|l| - 1] == ')' && '_' !in a
    ensures forall m: nat :: !Contains(d + l + a, Placeholder(m))
  {
    forall m: nat
      ensures !Contains(d + l + a, Placeholder(m))
    {
      PlaceholderUrlChars(m);
      FreeJoinAt(d, l, a, Placeholder(m));
    }
  }

  /** `FreeJoin` for one pattern that starts with `_` and holds no `[` or `)`. */
  lemma FreeJoinAt(d: string, l: string, a: string, p: string)
    requires !Contains(d, p) && !Contains(l, p)
    requires p != [] && p[0] == '_' && '[' !in p && ')' !in p
    requires l != [] && l[0] == '[' && l[|l| - 1] == ')' && '_' !in a
    ensures !Contains(d + l + a, p)
  {
    ConcatFree(d, l, p);
    NoStart(a, p);
    assert (d + l)[|d + l| - 1] == ')';
    ConcatFree(d + l, a, p);
  }

  /** A `)` still follows every `_` once a piece ending in `)` and text
      without `_` are appended. */
  lemma UnderscoreJoin(d: string, l: string, a: string)
    requires forall j | 0 <= j < |d| && d[j] == '_' :: ')' in d[j..]
    requires l != [] && l[|l| - 1] == ')' && '_' !in a
    ensures forall j | 0 <= j < |d + l + a| && (d + l + a)[j] == '_' :: ')' in (d + l + a)[j..]
  {
    var s := d + l + a;
    assert forall j | |d| + |l| <= j < |s| :: s[j] == a[j - |d| - |l|];
    forall j | 0 <= j < |s| && s[j] == '_'
      ensures ')' in s[j..]
    {
      if j < |d| {
        var i :| 0 <= i < |d[j..]| && d[j..][i] == ')';
        assert s[j..][i] == ')';
      } else if j < |d| + |l| {
        assert s[j..][|d| + |l| - 1 - j] == ')';
      }
    }
  }

  /** A sealed text stays sealed when a link without placeholders and text
      without `_` are appended. */
  lemma SealedAfter(d: string, g: Segment)
    requires Sealed(d) && Restorable(g)
    ensures Sealed(d + SegmentLink(g) + Autolink(g.after))
  {
    var l := SegmentLink(g);
    AutolinkKeepsOut(g.after);
    assert l[0] == '[' && l[|l| - 1] == ')';
    FreeJoin(d, l, Autolink(g.after));
    UnderscoreJoin(d, l, Autolink(g.after));
  }

  /** The first occurrence of a placeholder after a sealed text is the one
      right after it. */
  lemma ReplaceSealed(x: string, p: string, y: string, r: string)
    requires p != [] && p[0] == '_' && ')' !in p
    requires !Contains(x, p) && forall j | 0 <= j < |x| && x[j] == '_' :: ')' in x[j..]
    ensures ReplaceFirst(x + p + y, p, r) == x + r + y
  {
    var s := x + p + y;
    assert s[|x|..|x| + |p|] == p;
    assert OccursAt(s, p, |x|);
    forall j | 0 <= j < |x|
      ensures !OccursAt(s, p, j)
    {
      if x[j] != '_' {
        assert s[j] == x[j];
      } else {
        var i :| 0 <= i < |x[j..]| && x[j..][i] == ')';
        if j + |p| <= |x| {
          assert s[j..j + |p|] == x[j..j + |p|];
          assert !OccursAt(x, p, j);
        } else {
          assert s[j + i] == ')';
        }
      }
    }
    var k := FirstOccurrence(s, p, 0).value;
    assert k == |x|;
    assert s[..k] == x;
    assert s[k + |p|..] == y;
  }

  /** The `forEach` puts every link back where its placeholder is. */
  lemma {:induction false} RestoreSegments(d: string, gs: seq<Segment>, n: nat)
    requires Sealed(d) && AllRestorable(gs)
    ensures RestoreAll(d + Filled(gs, n), Stored(gs, n)) == d + Shown(gs)
    decreases |gs|
  {
    if gs == [] {
      AppendEmpty(d);
    } else {
      var g := gs[0];
      var d' := d + SegmentLink(g) + Autolink(g.after);
      RestoreStep(d, g, n, Filled(gs[1..], n + 1), Stored(gs[1..], n + 1));
      RestoreSegments(d', gs[1..], n + 1);
      Regroup(d, SegmentLink(g), Autolink(g.after), Shown(gs[1..]));
    }
  }

  /** Restoring placeholder `n` right after a sealed text puts its link
      there, and the text stays sealed. */
  lemma RestoreStep(d: string, g: Segment, n: nat, f: string, es: seq<Entry>)
    requires Sealed(d) && Restorable(g)
    ensures RestoreAll(d + (Placeholder(n) + (Autolink(g.after) + f)), [Entry(Placeholder(n), SegmentLink(g))] + es)
         == RestoreAll(d + SegmentLink(g) + Autolink(g.after) + f, es)
    ensures Sealed(d + SegmentLink(g) + Autolink(g.after))
  {
    var p := Placeholder(n);
    var l := SegmentLink(g);
    var a := Autolink(g.after);
    Associative(d, p, a + f);
    PlaceholderUrlChars(n);
    ReplaceSealed(d, p, a + f, l);
    RestoreFront(d + (p + (a + f)), Entry(p, l), es);
    SealedAfter(d, g);
    Regroup(d, l, a, f);
  }

  lemma Regroup(d: string, l: string, a: string, z: string)
    ensures d + l + a + z == d + (l + (a + z)) == d + l + (a + z)
  {
  }

  /** Links with a valid url, however many, come back exactly as written and
      in order, and only the text between them is autolinked; this needs the
      text to hold no `[` or `_`, every text a link follows to end in
      whitespace, `)` or `]` (or be empty), and no link to hold a placeholder. */
  lemma ValidLinksKept(a: string, gs: seq<Segment>)
    requires '[' !in a && '_' !in a && RunsEnd(a, gs) && AllProtectable(gs) && AllRestorable(gs)
    ensures MarkdownContent(a + Written(gs)) == Autolink(a) + Shown(gs)
  {
    if a + Written(gs) != [] {
      ProtectSegments(a, gs, 0);
      MarkdownOf(a + Written(gs), a + Holes(gs, 0), Stored(gs, 0));
      AutolinkSegments(a, gs, 0);
      AutolinkKeepsOut(a);
      SealedPlain(Autolink(a));
      RestoreSegments(Autolink(a), gs, 0);
    }
  }

  /** The corrected rewriting over several links. */
  lemma {:induction false} FixedSegments(a: string, gs: seq<Segment>)
    requires '[' !in a && AllProtectable(gs)
    ensures RewriteLinks(a + Written(gs), []) == Autolink(a) + Shown(gs)
    decreases |gs|
  {
    AppendEmpty(a);
    if gs == [] {
      RewritePlain(a, [], []);
      AppendEmpty(Autolink(a));
    } else {
      var g := gs[0];
      var r := g.after + Written(gs[1..]);
      RewritePlain(a, SegmentLink(g) + r, []);
      RewriteValidLink(g.text, g.url, r, a);
      FixedSegments(g.after, gs[1..]);
      Associative(Autolink(a), SegmentLink(g), Autolink(g.after) + Shown(gs[1..]));
    }
  }

  /** Corrected: links with a valid url, however many, are kept exactly as
      written and the text between them is autolinked, whatever that text
      ends with and whatever it holds besides `[`. */
  lemma FixedKeepsLinks(a: string, gs: seq<Segment>)
    requires '[' !in a && AllProtectable(gs)
    ensures MarkdownContentFixed(a + Written(gs)) == Autolink(a) + Shown(gs)
  {
    FixedSegments(a, gs);
  }

  // ----- running the rewriting twice -----

  /** The autolink pass alone wraps a URL again: `[u](u)` becomes
      `[[u](u)]([u](u))`, because `[` is a URL character. */
  lemma AutolinkTwice(scheme: string, run: string)
    requires scheme == "http://" || scheme == "https://"
    requires run != [] && forall k | 0 <= k < |run| :: UrlChar(run[k])
    ensures Autolink(scheme + run) == LinkText(scheme + run, scheme + run)
    ensures Autolink(Autolink(scheme + run)) == LinkText(Autolink(scheme + run), Autolink(scheme + run))
    ensures Autolink(Autolink(scheme + run)) != Autolink(scheme + run)
  {
    var u := scheme + run;
    AutolinkWrap(scheme, run, []);
    AutolinkWrap(scheme, run, ")");
    AutolinkWrap(scheme, run, "](" + (u + ")"));
    TwiceFrom(u);
  }

  /** The second autolink pass over `[u](u)`, from what one pass does to
      `u` followed by each of the characters that end it. */
  lemma TwiceFrom(u: string)
    requires Autolink(u + []) == LinkText(u, u) + Autolink([])
    requires Autolink(u + ")") == LinkText(u, u) + Autolink(")")
    requires Autolink(u + ("](" + (u + ")"))) == LinkText(u, u) + Autolink("](" + (u + ")"))
    ensures Autolink(u) == LinkText(u, u)
    ensures Autolink(Autolink(u)) == LinkText(Autolink(u), Autolink(u))
    ensures Autolink(Autolink(u)) != Autolink(u)
  {
    var w := LinkText(u, u);
    var x := u + ("](" + (u + ")"));
    FirstPass(u, w);
    TwiceInner(u, w);
    AutolinkNoScheme("[", x);
    TwiceShape(u, w);
    TwiceGlue(Autolink, u, w, x);
  }

  lemma FirstPass(u: string, w: string)
    requires Autolink(u + []) == w + Autolink([])
    ensures Autolink(u) == w
  {
    AppendEmpty(u);
    AppendEmpty(w);
  }

  /** What follows the first `[` of `[u](u)`. */
  lemma TwiceInner(u: string, w: string)
    requires Autolink(u + ")") == w + Autolink(")")
    requires Autolink(u + ("](" + (u + ")"))) == w + Autolink("](" + (u + ")"))
    ensures Autolink(u + ("](" + (u + ")"))) == w + ("](" + (w + ")"))
  {
    AutolinkNoScheme(")", []);
    AppendEmpty(")");
    AppendEmpty(Autolink([]));
    AutolinkNoScheme("](", u + ")");
  }

  lemma TwiceShape(u: string, w: string)
    ensures "[" + u + "](" + u + ")" == "[" + (u + ("](" + (u + ")")))
  {
  }

  /** A rewriting `f` that turns `u` into `w = [x` and `x` into `w](w)`, and
      leaves a leading `[` alone, turns `w` into the link `[w](w)`. */
  lemma TwiceGlue(f: string -> string, u: string, w: string, x: string)
    requires f(u) == w && w == "[" + x
    requires f("[" + x) == "[" + f(x) && f(x) == w + ("](" + (w + ")"))
    ensures f(f(u)) == LinkText(f(u), f(u)) && f(f(u)) != f(u)
  {
    assert "[" + (w + ("](" + (w + ")"))) == LinkText(w, w);
    assert |LinkText(w, w)| > |w|;
  }

  /** A bare URL and the text after it. */
  datatype BareUrl = BareUrl(scheme: string, run: string, after: string)

  function Url(b: BareUrl): string {
    b.scheme + b.run
  }

  /** A scheme and URL characters without `[` or `_`. */
  predicate IsUrl(scheme: string, run: string) {
    (scheme == "http://" || scheme == "https://")
    && run != [] && '[' !in run && '_' !in run && forall k | 0 <= k < |run| :: UrlChar(run[k])
  }

  /** Text that starts and ends in whitespace, `)` or `]` and holds no `[`,
      no `_` and no URL. */
  predicate Quiet(c: string) {
    c != [] && !UrlChar(c[0]) && !UrlChar(c[|c| - 1]) && '[' !in c && '_' !in c && Autolink(c) == c
  }

  predicate AllBare(bs: seq<BareUrl>) {
    bs == [] || (IsUrl(bs[0].scheme, bs[0].run) && Quiet(bs[0].after) && AllBare(bs[1..]))
  }

  /** The URLs and the text after each, as written. */
  function Plain(bs: seq<BareUrl>): string {
    if bs == [] then [] else Url(bs[0]) + (bs[0].after + Plain(bs[1..]))
  }

  /** Each URL as the link `[u](u)`, followed by its text. */
  function Wrapped(bs: seq<BareUrl>): (gs: seq<Segment>)
    ensures |gs| == |bs|
  {
    if bs == [] then [] else [Segment(Url(bs[0]), Url(bs[0]), bs[0].after)] + Wrapped(bs[1..])
  }

  lemma SchemeChars(scheme: string)
    requires scheme == "http://" || scheme == "https://"
    ensures scheme[0] == 'h' && '[' !in scheme && '_' !in scheme
    ensures forall k | 0 <= k < |scheme| :: UrlChar(scheme[k])
  {
  }

  /** The characters of a bare URL. */
  lemma UrlShape(scheme: string, run: string)
    requires IsUrl(scheme, run)
    ensures scheme + run != [] && (scheme + run)[0] == 'h' && '[' !in scheme + run && '_' !in scheme + run
    ensures forall k | 0 <= k < |scheme + run| :: UrlChar((scheme + run)[k])
  {
    SchemeChars(scheme);
    var u := scheme + run;
    assert forall k | |scheme| <= k < |u| :: u[k] == run[k - |scheme|];
    assert forall k | 0 <= k < |scheme| :: u[k] == scheme[k];
  }

  /** A url that starts with `h` passes the url test. */
  lemma ValidUrlOf(u: string)
    requires u != [] && u[0] == 'h'
    ensures ValidUrl(u)
  {
    TrimAllWhitespace(u);
    assert !IsWhitespace(u[0]);
    assert "undefined"[0] == 'u';
  }

  /** Text without `_` holds no placeholder. */
  lemma NoPlaceholderIn(l: string)
    requires '_' !in l
    ensures forall m: nat :: !Contains(l, Placeholder(m))
  {
    forall m: nat
      ensures !Contains(l, Placeholder(m))
    {
      NoStart(l, Placeholder(m));
    }
  }

  /** The wrapped URL is a link the pipeline keeps. */
  lemma WrappedKept(u: string, c: string)
    requires u != [] && u[0] == 'h' && '_' !in u && ']' !in u && ')' !in u
    requires '[' !in c && '_' !in c
    ensures Protectable(Segment(u, u, c)) && Restorable(Segment(u, u, c))
  {
    ValidUrlOf(u);
    var l := LinkText(u, u);
    assert '_' !in l;
    NoPlaceholderIn(l);
  }

  lemma {:induction false} WrappedAllKept(bs: seq<BareUrl>)
    requires AllBare(bs)
    ensures AllProtectable(Wrapped(bs)) && AllRestorable(Wrapped(bs))
    decreases |bs|
  {
    if bs != [] {
      var b := bs[0];
      UrlShape(b.scheme, b.run);
      WrappedKept(Url(b), b.after);
      WrappedAllKept(bs[1..]);
      assert Wrapped(bs)[1..] == Wrapped(bs[1..]);
    }
  }

  /** Text that holds no URL and one URL after it. */
  lemma AutolinkPlainStep(a: string, scheme: string, run: string, r: string)
    requires a == [] || !UrlChar(a[|a| - 1])
    requires Autolink(a) == a && IsUrl(scheme, run)
    requires r != [] && !UrlChar(r[0])
    ensures Autolink(a + (scheme + run + r)) == a + (LinkText(scheme + run, scheme + run) + Autolink(r))
  {
    var u := scheme + run;
    if a == [] {
      AppendEmpty(u + r);
      AppendEmpty(Autolink(u + r));
    } else {
      AutolinkStop(a, u + r);
    }
    AutolinkWrap(scheme, run, r);
  }

  /** Autolinking plain text wraps each URL once. */
  lemma {:induction false} AutolinkPlain(a: string, bs: seq<BareUrl>)
    requires a == [] || !UrlChar(a[|a| - 1])
    requires Autolink(a) == a && AllBare(bs)
    ensures Autolink(a + Plain(bs)) == a + Written(Wrapped(bs))
    decreases |bs|
  {
    if bs == [] {
      AppendEmpty(a);
    } else {
      var b := bs[0];
      var r := b.after + Plain(bs[1..]);
      assert r[0] == b.after[0];
      AutolinkPlainStep(a, b.scheme, b.run, r);
      AutolinkPlain(b.after, bs[1..]);
      assert Wrapped(bs)[1..] == Wrapped(bs[1..]);
    }
  }

  lemma {:induction false} PlainNoBracket(bs: seq<BareUrl>)
    requires AllBare(bs)
    ensures '[' !in Plain(bs)
    decreases |bs|
  {
    if bs != [] {
      UrlShape(bs[0].scheme, bs[0].run);
      PlainNoBracket(bs[1..]);
    }
  }

  /** Each wrapped URL is followed by text that ends runs. */
  lemma {:induction false} WrappedRunsEnd(a: string, bs: seq<BareUrl>)
    requires a == [] || !UrlChar(a[|a| - 1])
    requires AllBare(bs)
    ensures RunsEnd(a, Wrapped(bs))
    decreases |bs|
  {
    if bs != [] {
      assert Wrapped(bs)[1..] == Wrapped(bs[1..]);
      WrappedRunsEnd(bs[0].after, bs[1..]);
    }
  }

  /** Text that holds no URL shows as written. */
  lemma {:induction false} ShownWritten(bs: seq<BareUrl>)
    requires AllBare(bs)
    ensures Shown(Wrapped(bs)) == Written(Wrapped(bs))
    decreases |bs|
  {
    if bs != [] {
      assert Wrapped(bs)[1..] == Wrapped(bs[1..]);
      ShownWritten(bs[1..]);
    }
  }

  /** The whole rewriting is idempotent on text with bare URLs: its output
      wraps each URL once, and rewriting that output again changes nothing,
      since the first pass sets the links aside before autolinking. */
  lemma MarkdownIdempotent(a: string, bs: seq<BareUrl>)
    requires '[' !in a && '_' !in a && Autolink(a) == a && (a == [] || !UrlChar(a[|a| - 1]))
    requires AllBare(bs)
    ensures MarkdownContent(a + Plain(bs)) == a + Written(Wrapped(bs))
    ensures MarkdownContent(MarkdownContent(a + Plain(bs))) == MarkdownContent(a + Plain(bs))
  {
    var gs := Wrapped(bs);
    PlainNoBracket(bs);
    NoLinks(a + Plain(bs));
    AutolinkPlain(a, bs);
    WrappedRunsEnd(a, bs);
    WrappedAllKept(bs);
    ValidLinksKept(a, gs);
    ShownWritten(bs);
  }
}
