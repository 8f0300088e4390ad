/** `processExternalLinks`: every `<a href>` of the rendered content whose
    href is an absolute http or https URL opens in a new tab without access
    to its opener. The anchors are given as a list; parsing and serializing
    the HTML are not modelled. */
module ExternalLinks {
  import opened Text

  /** The attributes of one anchor that the function reads or sets. */
  datatype Anchor = Anchor(href: string, target: Option<string>, rel: Option<string>)

  /** The test on the href: present, starting with `http://` or `https://`,
      and not starting with `#`. */
  predicate IsExternal(href: string) {
    href != [] && (StartsWith(href, "http://") || StartsWith(href, "https://")) && !StartsWith(href, "#")
  }

  /** The emptiness and `#` checks add nothing: a href is treated as external
      exactly when it starts with `http://` or `https://`. */
  lemma ExternalIff(href: string)
    ensures IsExternal(href) <==> StartsWith(href, "http://") || StartsWith(href, "https://")
  {
    if StartsWith(href, "http://") || StartsWith(href, "https://") {
      assert href[0] == 'h';
    }
  }

  /** The anchor after the loop body: external links get `target="_blank"`
      and `rel="noopener noreferrer"`, other anchors are left alone. */
  function Marked(a: Anchor): (b: Anchor)
    ensures b.href == a.href
    ensures IsExternal(a.href) ==> b.target == Some("_blank") && b.rel == Some("noopener noreferrer")
    ensures !IsExternal(a.href) ==> b == a
  {
    if IsExternal(a.href) then a.(target := Some("_blank"), rel := Some("noopener noreferrer")) else a
  }

  /** Marking twice is marking once. */
  lemma MarkedIdempotent(a: Anchor)
    ensures Marked(Marked(a)) == Marked(a)
  {
  }

  /** `links.forEach(link => …)` over the anchors, in place. */
  method ProcessExternalLinks(links: array<Anchor>)
    modifies links
    ensures forall i | 0 <= i < links.Length :: links[i] == Marked(old(links[i]))
  {
    var i := 0;
    while i < links.Length
      invariant 0 <= i <= links.Length
      invariant forall j | 0 <= j < i :: links[j] == Marked(old(links[j]))
      invariant forall j | i <= j < links.Length :: links[j] == old(links[j])
    {
      var href := links[i].href;
      if href != [] && (StartsWith(href, "http://") || StartsWith(href, "https://")) && !StartsWith(href, "#") {
        links[i] := links[i].(target := Some("_blank"), rel := Some("noopener noreferrer"));
      }
      i := i + 1;
    }
  }
}
