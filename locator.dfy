/** The listing locator and the body of `scrapeListings` (index.js:168-387):
    the blocking guard, the walk over the listing selectors, extraction of
    every matched element and the relevance filter. Every selector that
    matches contributes its records; the walk does not stop at the first
    selector that matches. */
module Locator {
  import opened Seqs
  import opened Strings
  import opened Dom
  import opened Extractor
  import opened Relevance

  /** The listing selectors, in the order they are tried. */
  const ListingSelectors: seq<PageSelector> := [
    Plain(TagClass("li", "search-page__result")),
    Plain(TagClass("article", "product-card")),
    Plain(TagClass("div", "search-result")),
    Plain(TagAttr("div", AttrIs("data-component", "search-result"))),
    Within(Class("results-page-section"), Tag("article")),
    Plain(Class("search-listing")),
    Plain(Class("vehicle-card"))]

  /** What the HTTP request delivers: a page, or a failure (network error,
      bad status, timeout), which `scrapeListings` catches. */
  datatype Fetch = Fetched(page: Page) | FetchFailed

  /** The raw markup carries one of the blocking markers (case-sensitive). */
  predicate Blocked(raw: string)
  {
    Contains(raw, "captcha") || Contains(raw, "cloudflare") || Contains(raw, "security check")
  }

  // ------------------------------------------------- one selector

  /** The per-element extractor: the element, its index among its
      selector's matches and the timestamp give the record. */
  type Extract = (Element, nat, string) -> Listing

  /** The kept records of the first `n` matched elements of one selector;
      the element index counts from 0 within that selector's matches. The
      walk is stated for any extractor and relevance test; the scrape
      passes `ListingOf` and `IsRelevant`. */
  function Kept(extract: Extract, keep: Listing -> bool, els: seq<Element>, n: nat, now: string): seq<Listing>
    requires n <= |els|
  {
    if n == 0 then []
    else
      var r := extract(els[n - 1], n - 1, now);
      Kept(extract, keep, els, n - 1, now) + if keep(r) then [r] else []
  }

  /** The kept records of all of one selector's matched elements. */
  function KeptOf(extract: Extract, keep: Listing -> bool, els: seq<Element>, now: string): seq<Listing>
  {
    Kept(extract, keep, els, |els|, now)
  }

  /** `x` is the record of element `j`, extracted at index `j`, and it is
      kept. */
  predicate KeptAt(extract: Extract, keep: Listing -> bool, els: seq<Element>, j: nat, now: string, x: Listing)
  {
    j < |els| && x == extract(els[j], j, now) && keep(x)
  }

  /** One more element extends the kept records by its record when that is
      kept. */
  lemma KeptStep(extract: Extract, keep: Listing -> bool, els: seq<Element>, n: nat, now: string, r: Listing)
    requires n < |els| && r == extract(els[n], n, now)
    ensures Kept(extract, keep, els, n + 1, now) == Kept(extract, keep, els, n, now) + if keep(r) then [r] else []
  {
  }

  /** The loop step of the callback: appending the next record when it is
      kept extends the accumulated records by one element's worth. */
  lemma AppendKeptStep(extract: Extract, keep: Listing -> bool, acc: seq<Listing>, els: seq<Element>, n: nat, now: string, listings: seq<Listing>, r: Listing)
    requires n < |els| && r == extract(els[n], n, now) && listings == acc + Kept(extract, keep, els, n, now)
    ensures (if keep(r) then listings + [r] else listings) == acc + Kept(extract, keep, els, n + 1, now)
  {
    KeptStep(extract, keep, els, n, now, r);
    AppendStep(acc, Kept(extract, keep, els, n, now), listings, r, keep(r));
  }

  /** A record is kept from the first `n` elements exactly when it is the
      kept record of one of them. */
  lemma {:induction false} KeptMembers(extract: Extract, keep: Listing -> bool, els: seq<Element>, n: nat, now: string, x: Listing)
    requires n <= |els|
    ensures x in Kept(extract, keep, els, n, now) <==> exists j: nat :: j < n && KeptAt(extract, keep, els, j, now, x)
  {
    if n > 0 {
      KeptMembers(extract, keep, els, n - 1, now, x);
      var r := extract(els[n - 1], n - 1, now);
      if x in Kept(extract, keep, els, n, now) && x !in Kept(extract, keep, els, n - 1, now) {
        assert KeptAt(extract, keep, els, n - 1, now, x);
      }
      if exists j: nat :: j < n && KeptAt(extract, keep, els, j, now, x) {
        var j: nat :| j < n && KeptAt(extract, keep, els, j, now, x);
        if j == n - 1 {
          assert x == r;
        }
      }
    }
  }

  // ------------------------------------------------- all selectors

  /** The matched elements of each selector, in selector order. */
  function Matches(page: Page, sels: seq<PageSelector>): (m: seq<seq<Element>>)
    ensures |m| == |sels| && forall i :: 0 <= i < |sels| ==> m[i] == Select(page, sels[i])
  {
    seq(|sels|, i requires 0 <= i < |sels| => Select(page, sels[i]))
  }

  /** The kept records of each selector's matches, in selector order. */
  function Parts(extract: Extract, keep: Listing -> bool, matches: seq<seq<Element>>, now: string): (ps: seq<seq<Listing>>)
    ensures |ps| == |matches| && forall i :: 0 <= i < |matches| ==> ps[i] == KeptOf(extract, keep, matches[i], now)
  {
    seq(|matches|, i requires 0 <= i < |matches| => KeptOf(extract, keep, matches[i], now))
  }

  /** The records of all selectors' matches, concatenated in selector
      order. */
  function Collected(extract: Extract, keep: Listing -> bool, matches: seq<seq<Element>>, now: string): seq<Listing>
  {
    Flatten(Parts(extract, keep, matches, now))
  }

  /** `x` is the kept record of the `j`-th match of the `i`-th selector,
      extracted at index `j`. */
  predicate FromMatch(extract: Extract, keep: Listing -> bool, matches: seq<seq<Element>>, now: string, x: Listing, i: nat, j: nat)
  {
    i < |matches| && KeptAt(extract, keep, matches[i], j, now, x)
  }

  /** A selector's kept records hold `x` exactly when `x` comes from one of
      its matches. */
  lemma KeptOfIff(extract: Extract, keep: Listing -> bool, matches: seq<seq<Element>>, now: string, x: Listing, i: nat)
    requires i < |matches|
    ensures x in KeptOf(extract, keep, matches[i], now) <==> exists j: nat :: FromMatch(extract, keep, matches, now, x, i, j)
  {
    var els := matches[i];
    KeptMembers(extract, keep, els, |els|, now, x);
    if x in KeptOf(extract, keep, els, now) {
      var j: nat :| j < |els| && KeptAt(extract, keep, els, j, now, x);
      assert FromMatch(extract, keep, matches, now, x, i, j);
    }
    if exists j: nat :: FromMatch(extract, keep, matches, now, x, i, j) {
      var j: nat :| FromMatch(extract, keep, matches, now, x, i, j);
      assert j < |els| && KeptAt(extract, keep, els, j, now, x);
    }
  }

  /** The walk over all selectors keeps exactly the kept records of all
      their matches. */
  lemma CollectedMembers(extract: Extract, keep: Listing -> bool, matches: seq<seq<Element>>, now: string, x: Listing)
    ensures x in Collected(extract, keep, matches, now) <==>
      exists i: nat, j: nat :: FromMatch(extract, keep, matches, now, x, i, j)
  {
    var parts := Parts(extract, keep, matches, now);
    FlattenMembers(parts, x);
    if x in Collected(extract, keep, matches, now) {
      var i :| 0 <= i < |parts| && x in parts[i];
      KeptOfIff(extract, keep, matches, now, x, i);
    }
    if exists i: nat, j: nat :: FromMatch(extract, keep, matches, now, x, i, j) {
      var i: nat, j: nat :| FromMatch(extract, keep, matches, now, x, i, j);
      KeptOfIff(extract, keep, matches, now, x, i);
      assert x in parts[i];
    }
  }

  /** Two selectors matching elements with the same kept record both
      report it. */
  lemma OverlapCounts(extract: Extract, keep: Listing -> bool, matches: seq<seq<Element>>, now: string, x: Listing, i1: nat, j1: nat, i2: nat, j2: nat)
    requires i1 < i2
    requires FromMatch(extract, keep, matches, now, x, i1, j1) && FromMatch(extract, keep, matches, now, x, i2, j2)
    ensures multiset(Collected(extract, keep, matches, now))[x] >= 2
  {
    var parts := Parts(extract, keep, matches, now);
    KeptOfIff(extract, keep, matches, now, x, i1);
    KeptOfIff(extract, keep, matches, now, x, i2);
    FlattenTwice(parts, x, i1, i2);
  }

  /** The loop step of the walk: appending the next selector's kept records
      extends the concatenation by one part. */
  lemma CollectStep(extract: Extract, keep: Listing -> bool, matches: seq<seq<Element>>, s: nat, now: string, listings: seq<Listing>)
    requires s < |matches| && listings == Flatten(Parts(extract, keep, matches, now)[..s])
    ensures listings + KeptOf(extract, keep, matches[s], now) == Flatten(Parts(extract, keep, matches, now)[..s + 1])
  {
    var parts := Parts(extract, keep, matches, now);
    assert parts[..s + 1] == parts[..s] + [parts[s]];
    FlattenAppend(parts[..s], parts[s]);
  }

  // ------------------------------------------------- the scrape

  /** What `scrapeListings` returns. */
  function Scrape(fetch: Fetch, now: string): seq<Listing>
  {
    match fetch
    case FetchFailed => []
    case Fetched(page) =>
      if Blocked(page.raw) then []
      else Collected(ListingOf, IsRelevant, Matches(page, ListingSelectors), now)
  }

  /** `x` is the relevant record of the `j`-th element that the `i`-th
      listing selector matches on the page, extracted at index `j`. */
  predicate Scraped(page: Page, now: string, x: Listing, i: nat, j: nat)
  {
    FromMatch(ListingOf, IsRelevant, Matches(page, ListingSelectors), now, x, i, j)
  }

  /** What a page yields is exactly its relevant matched records. */
  lemma PageMembers(page: Page, now: string, x: Listing)
    ensures x in Collected(ListingOf, IsRelevant, Matches(page, ListingSelectors), now) <==>
      exists i: nat, j: nat :: Scraped(page, now, x, i, j)
  {
    var matches := Matches(page, ListingSelectors);
    CollectedMembers(ListingOf, IsRelevant, matches, now, x);
    if x in Collected(ListingOf, IsRelevant, matches, now) {
      var i: nat, j: nat :| FromMatch(ListingOf, IsRelevant, matches, now, x, i, j);
      assert Scraped(page, now, x, i, j);
    }
    if exists i: nat, j: nat :: Scraped(page, now, x, i, j) {
      var i: nat, j: nat :| Scraped(page, now, x, i, j);
      assert FromMatch(ListingOf, IsRelevant, matches, now, x, i, j);
    }
  }

  /** The scrape returns exactly the relevant records of the elements that
      any listing selector matches, each extracted at its index within that
      selector's matches; it returns nothing for a failed fetch or a
      blocked page. */
  lemma ScrapeMembers(fetch: Fetch, now: string, x: Listing)
    ensures x in Scrape(fetch, now) <==>
      fetch.Fetched? && !Blocked(fetch.page.raw) && exists i: nat, j: nat :: Scraped(fetch.page, now, x, i, j)
  {
    if fetch.Fetched? && !Blocked(fetch.page.raw) {
      PageMembers(fetch.page, now, x);
    }
  }

  /** Every record the scrape returns has a non-empty id, is relevant and
      carries the scrape's timestamp. */
  lemma ScrapeWellFormed(fetch: Fetch, now: string)
    ensures forall x :: x in Scrape(fetch, now) ==> x.id != "" && IsRelevant(x) && x.firstSeen == now
  {
    forall x | x in Scrape(fetch, now) ensures x.id != "" && IsRelevant(x) && x.firstSeen == now {
      ScrapeMembers(fetch, now, x);
      var i: nat, j: nat :| Scraped(fetch.page, now, x, i, j);
    }
  }

  /** When no listing selector matches any element the result is empty. */
  lemma NoMatchYieldsNothing(page: Page, now: string)
    requires forall i :: 0 <= i < |ListingSelectors| ==> Select(page, ListingSelectors[i]) == []
    ensures Scrape(Fetched(page), now) == []
  {
    var xs := Scrape(Fetched(page), now);
    if xs != [] {
      ScrapeMembers(Fetched(page), now, xs[0]);
      assert false;
    }
  }

  /** Not first-match-wins: an element reached through two listing selectors
      (say a `div.search-result` that also carries
      `data-component="search-result"`) is reported once per selector in
      what an unblocked page yields. */
  lemma OverlappingSelectorsDuplicate(page: Page, now: string, x: Listing, i1: nat, j1: nat, i2: nat, j2: nat)
    ensures !Blocked(page.raw) && i1 < i2 && Scraped(page, now, x, i1, j1) && Scraped(page, now, x, i2, j2) ==>
      multiset(Scrape(Fetched(page), now))[x] >= 2
  {
    if !Blocked(page.raw) && i1 < i2 && Scraped(page, now, x, i1, j1) && Scraped(page, now, x, i2, j2) {
      OverlapCounts(ListingOf, IsRelevant, Matches(page, ListingSelectors), now, x, i1, j1, i2, j2);
    }
  }

  // ------------------------------------------------- the loops

  /** The scrape as the source runs it: the request, the blocking guard,
      then the walk over the selectors (index.js:168-228, 372-386). */
  method ScrapeListings(fetch: Fetch, now: string) returns (listings: seq<Listing>)
    ensures listings == Scrape(fetch, now)
    ensures fetch.FetchFailed? || Blocked(fetch.page.raw) ==> listings == []
    ensures forall x :: x in listings ==> x.id != "" && IsRelevant(x) && x.firstSeen == now
  {
    ScrapeWellFormed(fetch, now);
    if fetch.FetchFailed? {
      return [];
    }
    if Blocked(fetch.page.raw) {
      return [];
    }
    listings := CollectListings(ListingOf, IsRelevant, fetch.page, ListingSelectors, now);
  }

  /** The walk over the selectors with no early exit (index.js:200-228). */
  method CollectListings(extract: Extract, keep: Listing -> bool, page: Page, sels: seq<PageSelector>, now: string)
    returns (listings: seq<Listing>)
    ensures listings == Collected(extract, keep, Matches(page, sels), now)
  {
    ghost var parts := Parts(extract, keep, Matches(page, sels), now);
    listings := [];
    var s := 0;
    while s < |sels|
      invariant 0 <= s <= |sels|
      invariant listings == Flatten(parts[..s])
    {
      var elements := Select(page, sels[s]);
      CollectStep(extract, keep, Matches(page, sels), s, now, listings);
      if |elements| > 0 {
        listings := AppendKept(extract, keep, listings, elements, now);
      } else {
        assert KeptOf(extract, keep, elements, now) == [];
      }
      s := s + 1;
    }
    assert parts[..s] == parts;
  }

  /** The `.each` callback over one selector's matched elements: extract
      each at its index and append it when it is kept (index.js:230-361). */
  method AppendKept(extract: Extract, keep: Listing -> bool, acc: seq<Listing>, elements: seq<Element>, now: string)
    returns (listings: seq<Listing>)
    ensures listings == acc + KeptOf(extract, keep, elements, now)
  {
    listings := acc;
    var index := 0;
    while index < |elements|
      invariant 0 <= index <= |elements|
      invariant listings == acc + Kept(extract, keep, elements, index, now)
    {
      var rec := extract(elements[index], index, now);
      AppendKeptStep(extract, keep, acc, elements, index, now, listings, rec);
      if keep(rec) {
        listings := listings + [rec];
      }
      index := index + 1;
    }
  }
}
