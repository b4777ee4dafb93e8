/** The field extractor: from one listing element to one listing record
    (index.js:230-350). Every field is found by an ordered list of rules and
    the first rule with a non-empty result wins; when every rule fails the
    field is "". Extraction is total: it never fails, it only defaults. */
module Extractor {
  import opened Seqs
  import opened Strings
  import opened Dom
  import opened Patterns

  /** One extracted listing (the `allData` object of the source). */
  datatype Listing = Listing(
    title: string,
    url: string,
    id: string,
    price: string,
    year: string,
    mileage: string,
    location: string,
    allText: string,
    firstSeen: string)

  // --------------------------------------------------- selector tables

  const TitleSelectors: seq<Group> := [
    [Class("product-card-content__title")], [Tag("h2")], [Tag("h3")], [Class("listing-title")],
    [Class("advert-heading")], [Class("search-result__title")], [Class("vehicle-card__title")]]

  /** `h1, h2, h3, h4, h5`, the heading fallback for the title. */
  const Headings: Group := [Tag("h1"), Tag("h2"), Tag("h3"), Tag("h4"), Tag("h5")]

  const LinkSelectors: seq<Group> := [
    [TagClass("a", "tracking-standard-link")], [TagClass("a", "advert-link")],
    [TagAttr("a", AttrHas("href", "/car-details"))], [TagClass("a", "listing-fpa-link")],
    [TagAttr("a", AttrHas("href", "volkswagen"))]]

  /** `a`, the link fallback. */
  const Anchors: Group := [Tag("a")]

  const PriceSelectors: seq<Group> := [
    [Class("product-card-pricing__price")], [Class("advert-price")], [Class("vehicle-price")],
    [Class("vehicle-card__price")], [Class("search-listing__price")], [TagAttr("span", HasAttr("data-price"))]]

  const LocationSelectors: seq<Group> := [
    [Class("product-card-seller-location")], [Class("seller-location")], [Class("listing-location")],
    [Class("vehicle-location")]]

  /** The site origin that relative links are resolved against. */
  const Origin: string := "https://www.autotrader.co.uk"

  // --------------------------------------------------- text fallbacks

  /** The first non-empty string of `xs`, or "" when all are empty: the
      "first rule with a result wins" combinator. */
  function FirstNonEmpty(xs: seq<string>): string
    decreases |xs|
  {
    if |xs| == 0 then "" else if xs[0] != "" then xs[0] else FirstNonEmpty(xs[1..])
  }

  /** The combinator's result is "" exactly when every candidate is, and
      otherwise it is a candidate all of whose predecessors are "". */
  lemma {:induction false} FirstNonEmptyIsFirstHit(xs: seq<string>)
    ensures FirstNonEmpty(xs) == "" <==> forall i :: 0 <= i < |xs| ==> xs[i] == ""
    ensures FirstNonEmpty(xs) != "" ==>
      exists i :: 0 <= i < |xs| && FirstNonEmpty(xs) == xs[i] && forall j :: 0 <= j < i ==> xs[j] == ""
    decreases |xs|
  {
    if |xs| > 0 && xs[0] == "" {
      var rest := xs[1..];
      FirstNonEmptyIsFirstHit(rest);
      assert forall i :: 0 < i < |xs| ==> xs[i] == rest[i - 1];
      if FirstNonEmpty(rest) != "" {
        var i :| 0 <= i < |rest| && FirstNonEmpty(rest) == rest[i] && forall j :: 0 <= j < i ==> rest[j] == "";
        assert FirstNonEmpty(xs) == xs[i + 1];
      }
    }
  }

  /** The trimmed combined text of each selector of a table, in order. */
  function Texts(e: Element, sels: seq<Group>): (ts: seq<string>)
    ensures |ts| == |sels|
    ensures forall i :: 0 <= i < |sels| ==> ts[i] == FindText(e, sels[i])
  {
    seq(|sels|, i requires 0 <= i < |sels| => FindText(e, sels[i]))
  }

  /** The trimmed text of the first selector, in priority order, whose
      trimmed combined text is non-empty; "" when there is none. */
  function FirstText(e: Element, sels: seq<Group>): string
  {
    FirstNonEmpty(Texts(e, sels))
  }

  /** The first-match-wins rule for a selector table: the result is ""
      exactly when every selector's text is empty, and otherwise it is the
      text of a selector all of whose predecessors have empty text. */
  lemma FirstTextIsFirstHit(e: Element, sels: seq<Group>)
    ensures FirstText(e, sels) == "" <==> forall i :: 0 <= i < |sels| ==> FindText(e, sels[i]) == ""
    ensures FirstText(e, sels) != "" ==>
      exists i :: && 0 <= i < |sels| && FirstText(e, sels) == FindText(e, sels[i])
                  && forall j :: 0 <= j < i ==> FindText(e, sels[j]) == ""
  {
    FirstNonEmptyIsFirstHit(Texts(e, sels));
  }

  /** The text of the first heading of the element, trimmed (`.first()`). */
  function HeadingText(e: Element): string
  {
    var hs := Find(e, Headings);
    if |hs| > 0 then Trim(hs[0].text) else ""
  }

  /** The title: the title selectors in order, then the first heading. */
  function TitleOf(e: Element): string
  {
    var t := FirstText(e, TitleSelectors);
    if t != "" then t else HeadingText(e)
  }

  /** The title is the first non-empty trimmed text of the title table; only
      when every selector of the table gives "" is it the trimmed text of the
      first heading. */
  lemma TitleRule(e: Element)
    ensures FirstText(e, TitleSelectors) != "" ==> TitleOf(e) == FirstText(e, TitleSelectors)
    ensures (forall i :: 0 <= i < |TitleSelectors| ==> FindText(e, TitleSelectors[i]) == "") ==>
      TitleOf(e) == HeadingText(e)
  {
    FirstTextIsFirstHit(e, TitleSelectors);
  }

  /** The loop over a selector table with an early `break`
      (index.js:243-249, 304-310, 344-350). */
  method FindFirstText(e: Element, sels: seq<Group>) returns (t: string)
    ensures t == FirstText(e, sels)
  {
    t := "";
    var i := 0;
    while i < |sels|
      invariant 0 <= i <= |sels|
      invariant t == "" && FirstText(e, sels) == FirstNonEmpty(Texts(e, sels)[i..])
    {
      assert Texts(e, sels)[i..][1..] == Texts(e, sels)[i + 1..];
      var x := FindText(e, sels[i]);
      if x != "" {
        t := x;
        break;
      }
      i := i + 1;
    }
  }

  // ------------------------------------------------------------- links

  /** An href that starts with "http" is kept; any other is resolved by
      prefixing the origin. */
  function Normalize(href: string): (u: string)
    ensures StartsWith(u, "http")
    ensures |href| <= |u| && u[|u| - |href|..] == href
    ensures StartsWith(href, "http") ==> u == href
    ensures !StartsWith(href, "http") ==> |u| == |Origin| + |href| && u[..|Origin|] == Origin
  {
    if StartsWith(href, "http") then href else Origin + href
  }

  /** The href of each link selector's first match, in order. */
  function Hrefs(e: Element, sels: seq<Group>): (hs: seq<string>)
    ensures |hs| == |sels|
    ensures forall i :: 0 <= i < |sels| ==> hs[i] == FirstHref(Find(e, sels[i]))
  {
    seq(|sels|, i requires 0 <= i < |sels| => FirstHref(Find(e, sels[i])))
  }

  /** The normalised href of the first link selector, in order, whose first
      match has a non-empty href; "" when none does. */
  function LinkUrl(e: Element, sels: seq<Group>): (u: string)
    ensures u == "" || StartsWith(u, "http")
  {
    var h := FirstNonEmpty(Hrefs(e, sels));
    if h != "" then Normalize(h) else ""
  }

  /** The link table gives "" exactly when no selector's first match has an
      href. */
  lemma LinkUrlEmptyIff(e: Element, sels: seq<Group>)
    ensures LinkUrl(e, sels) == "" <==> forall i :: 0 <= i < |sels| ==> FirstHref(Find(e, sels[i])) == ""
  {
    FirstNonEmptyIsFirstHit(Hrefs(e, sels));
  }

  /** A non-empty link-table URL is the normalised href of a selector all of
      whose predecessors have none. */
  lemma LinkUrlHit(e: Element, sels: seq<Group>)
    ensures LinkUrl(e, sels) != "" ==>
      exists i :: && 0 <= i < |sels| && FirstHref(Find(e, sels[i])) != ""
                  && LinkUrl(e, sels) == Normalize(FirstHref(Find(e, sels[i])))
                  && forall j :: 0 <= j < i ==> FirstHref(Find(e, sels[j])) == ""
  {
    var hs := Hrefs(e, sels);
    FirstNonEmptyIsFirstHit(hs);
    if FirstNonEmpty(hs) != "" {
      var i :| 0 <= i < |hs| && FirstNonEmpty(hs) == hs[i] && forall j :: 0 <= j < i ==> hs[j] == "";
      assert LinkUrl(e, sels) == Normalize(hs[i]);
    }
  }

  /** The first-match-wins rule for the link table: the URL is "" exactly
      when no selector's first match has an href, and otherwise it is the
      normalised href of a selector all of whose predecessors have none. */
  lemma LinkUrlIsFirstHit(e: Element, sels: seq<Group>)
    ensures LinkUrl(e, sels) == "" <==> forall i :: 0 <= i < |sels| ==> FirstHref(Find(e, sels[i])) == ""
    ensures LinkUrl(e, sels) != "" ==>
      exists i :: && 0 <= i < |sels| && FirstHref(Find(e, sels[i])) != ""
                  && LinkUrl(e, sels) == Normalize(FirstHref(Find(e, sels[i])))
                  && forall j :: 0 <= j < i ==> FirstHref(Find(e, sels[j])) == ""
  {
    LinkUrlEmptyIff(e, sels);
    LinkUrlHit(e, sels);
  }

  /** The URL: the link selectors, then the first anchor of the element. */
  function UrlOf(e: Element): string
  {
    var u := LinkUrl(e, LinkSelectors);
    if u != "" then u
    else if FirstHref(Find(e, Anchors)) != "" then Normalize(FirstHref(Find(e, Anchors)))
    else ""
  }

  /** The URL comes from the link table when any selector's first match has
      an href; only when none has is it the normalised href of the first
      anchor, and "" when that has none either. */
  lemma UrlRule(e: Element)
    ensures LinkUrl(e, LinkSelectors) != "" ==> UrlOf(e) == LinkUrl(e, LinkSelectors)
    ensures (forall i :: 0 <= i < |LinkSelectors| ==> FirstHref(Find(e, LinkSelectors[i])) == "") ==>
      UrlOf(e) == if FirstHref(Find(e, Anchors)) != "" then Normalize(FirstHref(Find(e, Anchors))) else ""
  {
    LinkUrlIsFirstHit(e, LinkSelectors);
  }

  /** The loop over a link table with its early `break` (index.js:262-273). */
  method FindLink(e: Element, sels: seq<Group>) returns (url: string)
    ensures url == LinkUrl(e, sels)
  {
    url := "";
    var i := 0;
    while i < |sels|
      invariant 0 <= i <= |sels|
      invariant url == "" && FirstNonEmpty(Hrefs(e, sels)) == FirstNonEmpty(Hrefs(e, sels)[i..])
    {
      assert Hrefs(e, sels)[i..][1..] == Hrefs(e, sels)[i + 1..];
      var links := Find(e, sels[i]);
      if |links| > 0 {
        var href := Href(links[0]);
        if href != "" {
          url := Normalize(href);
          break;
        }
      }
      i := i + 1;
    }
  }

  /** The link table, then the anchor fallback (index.js:257-280). */
  method FindUrl(e: Element) returns (url: string)
    ensures url == UrlOf(e)
  {
    url := FindLink(e, LinkSelectors);
    if url == "" {
      var href := FirstHref(Find(e, Anchors));
      if href != "" {
        url := Normalize(href);
      }
    }
  }

  /** Normalising a normalised URL changes nothing. */
  lemma NormalizeIdempotent(href: string)
    ensures Normalize(Normalize(href)) == Normalize(href)
  {
    var u := Normalize(href);
    assert u[..4] == "http";
  }

  /** Every URL the extractor produces is "" or starts with "http". */
  lemma UrlIsAbsolute(e: Element)
    ensures UrlOf(e) == "" || StartsWith(UrlOf(e), "http")
  {
  }

  // ---------------------------------------------------------------- id

  /** `url.split('/').pop()`: the text after the last '/', or all of `s`
      when it has no '/'. */
  function LastSegment(s: string): (r: string)
    ensures |r| <= |s| && r == s[|s| - |r|..]
    ensures '/' !in r
    ensures |r| < |s| ==> s[|s| - |r| - 1] == '/'
    decreases |s|
  {
    if |s| == 0 || s[|s| - 1] == '/' then "" else LastSegment(s[..|s| - 1]) + [s[|s| - 1]]
  }

  /** The id: the last path segment when it is non-empty, otherwise the
      synthetic `listing-<index>`. */
  function IdFor(url: string, index: nat): (id: string)
    ensures id != ""
  {
    var seg := LastSegment(url);
    if seg != "" then seg else "listing-" + NatToString(index)
  }

  /** The last segment is empty exactly when the URL is empty or ends in '/'. */
  lemma LastSegmentEmptyIff(s: string)
    ensures LastSegment(s) == "" <==> (s == "" || s[|s| - 1] == '/')
  {
  }

  /** The last segment of `prefix + "/" + seg`, for a `seg` without '/',
      is `seg`. */
  lemma {:induction false} LastSegmentAfterSlash(prefix: string, seg: string)
    requires '/' !in seg
    ensures LastSegment(prefix + "/" + seg) == seg
    decreases |seg|
  {
    var s := prefix + "/" + seg;
    if |seg| == 0 {
      assert s[|s| - 1] == '/';
    } else {
      var seg' := seg[..|seg| - 1];
      assert s[..|s| - 1] == prefix + "/" + seg';
      assert seg[|seg| - 1] in seg;
      assert forall c :: c in seg' ==> c in seg;
      LastSegmentAfterSlash(prefix, seg');
      assert seg == seg' + [seg[|seg| - 1]];
    }
  }

  /** The id is either the URL's non-empty last segment, which contains no
      '/' and ends the URL, or the synthetic id exactly when the URL is empty
      or ends in '/'. It is never empty. */
  lemma IdRule(url: string, index: nat)
    ensures var id := IdFor(url, index);
      || (id == LastSegment(url) && id != "" && '/' !in id && url[|url| - |id|..] == id)
      || (id == "listing-" + NatToString(index) && (url == "" || url[|url| - 1] == '/'))
  {
    LastSegmentEmptyIff(url);
  }

  /** A relative link such as "/car-details/<advert>" is resolved against
      the origin, and its last segment becomes the id whatever the index. */
  lemma RelativeLinkId(dir: string, seg: string, index: nat)
    requires seg != "" && '/' !in seg && !StartsWith(dir + "/" + seg, "http")
    ensures Normalize(dir + "/" + seg) == Origin + dir + "/" + seg
    ensures IdFor(Normalize(dir + "/" + seg), index) == seg
  {
    var href := dir + "/" + seg;
    assert Normalize(href) == Origin + href;
    SeqAssoc(Origin, dir, "/", seg);
    LastSegmentAfterSlash(Origin + dir, seg);
  }

  /** A URL that ends in '/' gives the synthetic id of the element's index. */
  lemma TrailingSlashExample()
    ensures IdFor("https://www.autotrader.co.uk/", 3) == "listing-3"
  {
    LastSegmentEmptyIff("https://www.autotrader.co.uk/");
    assert NatToString(3) == [DigitChar(3)] == "3";
  }

  // --------------------------------------------------- pattern scans

  datatype Pattern = YearPattern | MileagePattern

  /** The value a pattern extracts from one text, if it matches. */
  function MatchPattern(pat: Pattern, s: string): (r: Option<string>)
    ensures r.Some? ==> r.value != ""
  {
    match pat
    case YearPattern => MatchYear(s)
    case MileagePattern => MatchMileage(s)
  }

  /** The value of the first `Some` of `xs`, or "" when there is none. */
  function FirstSome(xs: seq<Option<string>>): string
    decreases |xs|
  {
    if |xs| == 0 then "" else if xs[0].Some? then xs[0].value else FirstSome(xs[1..])
  }

  /** When no candidate value is "", the result is "" exactly when every
      candidate is `None`, and otherwise the value of the first `Some`. */
  lemma {:induction false} FirstSomeIsFirstHit(xs: seq<Option<string>>)
    requires forall i :: 0 <= i < |xs| && xs[i].Some? ==> xs[i].value != ""
    ensures FirstSome(xs) == "" <==> forall i :: 0 <= i < |xs| ==> xs[i].None?
    ensures FirstSome(xs) != "" ==>
      exists i :: 0 <= i < |xs| && xs[i] == Some(FirstSome(xs)) && forall j :: 0 <= j < i ==> xs[j].None?
    decreases |xs|
  {
    if |xs| > 0 && xs[0].None? {
      var rest := xs[1..];
      assert forall i :: 0 < i < |xs| ==> xs[i] == rest[i - 1];
      FirstSomeIsFirstHit(rest);
      if FirstSome(rest) != "" {
        var i :| 0 <= i < |rest| && rest[i] == Some(FirstSome(rest)) && forall j :: 0 <= j < i ==> rest[j].None?;
        assert xs[i + 1] == Some(FirstSome(xs));
      }
    }
  }

  /** What the pattern extracts from each node's trimmed text, in order. */
  function Hits(ns: seq<Node>, pat: Pattern): (hs: seq<Option<string>>)
    ensures |hs| == |ns|
    ensures forall i :: 0 <= i < |ns| ==> hs[i] == MatchPattern(pat, Trim(ns[i].text))
  {
    seq(|ns|, i requires 0 <= i < |ns| => MatchPattern(pat, Trim(ns[i].text)))
  }

  /** The value from the first node, in document order, whose trimmed text
      the pattern matches; "" when no node matches. */
  function ScanFirst(ns: seq<Node>, pat: Pattern): string
  {
    FirstSome(Hits(ns, pat))
  }

  /** The scan stops at the first match: its value is "" exactly when no
      node's trimmed text matches, and otherwise the value of the first node
      that matches, every earlier node having no match. */
  lemma ScanFirstIsFirstHit(ns: seq<Node>, pat: Pattern)
    ensures ScanFirst(ns, pat) == "" <==> forall i :: 0 <= i < |ns| ==> MatchPattern(pat, Trim(ns[i].text)).None?
    ensures ScanFirst(ns, pat) != "" ==>
      exists i :: && 0 <= i < |ns| && MatchPattern(pat, Trim(ns[i].text)) == Some(ScanFirst(ns, pat))
                  && forall j :: 0 <= j < i ==> MatchPattern(pat, Trim(ns[j].text)).None?
  {
    FirstSomeIsFirstHit(Hits(ns, pat));
  }

  /** The `find('*').each` loop with its found flag (index.js:313-336): every
      descendant is visited, and only the first match is kept. */
  method ScanDescendants(e: Element, pat: Pattern) returns (v: string)
    ensures v == ScanFirst(e.descendants, pat)
  {
    var ns := e.descendants;
    v := "";
    var found := false;
    var i := 0;
    while i < |ns|
      invariant 0 <= i <= |ns|
      invariant found ==> ScanFirst(ns, pat) == v
      invariant !found ==> v == "" && ScanFirst(ns, pat) == FirstSome(Hits(ns, pat)[i..])
    {
      assert Hits(ns, pat)[i..][1..] == Hits(ns, pat)[i + 1..];
      if !found {
        var m := MatchPattern(pat, Trim(ns[i].text));
        if m.Some? {
          v := m.value;
          found := true;
        }
      }
      i := i + 1;
    }
  }

  // ------------------------------------------------------ the record

  /** The record the extractor builds from the element at position `index`
      of its selector's matches, stamped `now`. */
  function ListingOf(e: Element, index: nat, now: string): Listing
  {
    var url := UrlOf(e);
    Listing(
      title := TitleOf(e),
      url := url,
      id := IdFor(url, index),
      price := FirstText(e, PriceSelectors),
      year := ScanFirst(e.descendants, YearPattern),
      mileage := ScanFirst(e.descendants, MileagePattern),
      location := FirstText(e, LocationSelectors),
      allText := Trim(e.node.text),
      firstSeen := now)
  }

  /** The body of the per-element callback (index.js:230-350), field by field
      in the source's order. */
  method ExtractListing(e: Element, index: nat, now: string) returns (rec: Listing)
    ensures rec == ListingOf(e, index, now)
    ensures rec.id != "" && rec.firstSeen == now
  {
    var allText := Trim(e.node.text);
    var title := FindFirstText(e, TitleSelectors);
    if title == "" {
      title := HeadingText(e);
    }
    var url := FindUrl(e);
    var id := IdFor(url, index);
    rec := Listing(title, url, id, "", "", "", "", allText, now);
    var price := FindFirstText(e, PriceSelectors);
    rec := rec.(price := price);
    var year := ScanDescendants(e, YearPattern);
    rec := rec.(year := year);
    var mileage := ScanDescendants(e, MileagePattern);
    rec := rec.(mileage := mileage);
    var location := FindFirstText(e, LocationSelectors);
    rec := rec.(location := location);
  }

  // ------------------------------------------------ degradation

  /** No selector of the table matches any descendant of `e`. */
  ghost predicate NoneMatch(e: Element, sels: seq<Group>)
  {
    forall n, g :: n in e.descendants && g in sels ==> !MatchesGroup(g, n)
  }

  /** No selector of any field table, no heading and no anchor matches any
      descendant, and no descendant text carries a year or a mileage. */
  ghost predicate NoFieldRuleApplies(e: Element)
  {
    && NoneMatch(e, TitleSelectors) && NoneMatch(e, LinkSelectors)
    && NoneMatch(e, PriceSelectors) && NoneMatch(e, LocationSelectors)
    && NoneMatch(e, [Headings, Anchors])
    && (forall n :: n in e.descendants ==> MatchPattern(YearPattern, Trim(n.text)).None?)
    && (forall n :: n in e.descendants ==> MatchPattern(MileagePattern, Trim(n.text)).None?)
  }

  /** A selection that matches nothing has the empty text. */
  lemma FindNothing(e: Element, g: Group)
    requires forall n :: n in e.descendants ==> !MatchesGroup(g, n)
    ensures Find(e, g) == [] && FindText(e, g) == ""
  {
    FilterNone(e.descendants, (n: Node) => MatchesGroup(g, n));
  }

  /** A table none of whose selectors matches yields "". */
  lemma FirstTextOfNothing(e: Element, sels: seq<Group>)
    requires NoneMatch(e, sels)
    ensures FirstText(e, sels) == ""
  {
    forall i | 0 <= i < |sels| ensures FindText(e, sels[i]) == "" {
      FindNothing(e, sels[i]);
    }
    FirstTextIsFirstHit(e, sels);
  }

  /** A link table none of whose selectors matches yields "". */
  lemma LinkUrlOfNothing(e: Element, sels: seq<Group>)
    requires NoneMatch(e, sels)
    ensures LinkUrl(e, sels) == ""
  {
    forall i | 0 <= i < |sels| ensures FirstHref(Find(e, sels[i])) == "" {
      FindNothing(e, sels[i]);
    }
    LinkUrlIsFirstHit(e, sels);
  }

  /** A scan in which no text matches yields "". */
  lemma ScanOfNothing(ns: seq<Node>, pat: Pattern)
    requires forall n :: n in ns ==> MatchPattern(pat, Trim(n.text)).None?
    ensures ScanFirst(ns, pat) == ""
  {
    assert forall i :: 0 <= i < |ns| ==> ns[i] in ns;
    ScanFirstIsFirstHit(ns, pat);
  }

  /** Graceful degradation: when no rule applies, every free-text field is
      "" and the id is the synthetic one, which is still non-empty. */
  lemma BlankFragment(e: Element, index: nat, now: string)
    requires NoFieldRuleApplies(e)
    ensures var r := ListingOf(e, index, now);
      && r.title == "" && r.url == "" && r.price == "" && r.year == ""
      && r.mileage == "" && r.location == ""
      && r.id == "listing-" + NatToString(index)
  {
    FirstTextOfNothing(e, TitleSelectors);
    FirstTextOfNothing(e, PriceSelectors);
    FirstTextOfNothing(e, LocationSelectors);
    LinkUrlOfNothing(e, LinkSelectors);
    assert Headings in [Headings, Anchors] && Anchors in [Headings, Anchors];
    FindNothing(e, Headings);
    FindNothing(e, Anchors);
    ScanOfNothing(e.descendants, YearPattern);
    ScanOfNothing(e.descendants, MileagePattern);
  }
}
