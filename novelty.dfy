/** The novelty tracker and the history update of `checkNewListings`
    (index.js:389-465). The history is the map of seen listings read at the
    start of a check; a scraped listing is new when neither its id nor its
    URL is already known; the new ones are reported and recorded under
    their ids with the notification time. */
module Novelty {
  import opened Seqs
  import opened Strings
  import opened Extractor
  import opened Relevance
  import opened Locator

  /** A stored record: the listing's fields plus the time it was reported. */
  datatype Seen = Seen(listing: Listing, notifiedAt: string)

  /** The seen-listings map, keyed by listing id. */
  type History = map<string, Seen>

  /** Some stored record has exactly this URL. */
  predicate SeenByUrl(h: History, url: string)
  {
    exists k :: k in h && h[k].listing.url == url
  }

  /** The filter predicate: the id is not a key and the URL is not stored. */
  predicate IsNew(h: History, l: Listing)
  {
    l.id !in h && !SeenByUrl(h, l.url)
  }

  /** The listings of the batch that are new against `h`, in batch order. */
  function NewListings(ls: seq<Listing>, h: History): (r: seq<Listing>)
    ensures |r| <= |ls|
    ensures forall x :: x in r ==> x in ls && IsNew(h, x)
  {
    Filter(ls, (l: Listing) => IsNew(h, l))
  }

  /** A listing is reported exactly when it is in the batch and new, and
      as often as it occurs in the batch: copies within one batch are not
      checked against each other. */
  lemma NewListingsCount(ls: seq<Listing>, h: History)
    ensures forall x :: multiset(NewListings(ls, h))[x] == if IsNew(h, x) then multiset(ls)[x] else 0
    ensures forall x :: x in NewListings(ls, h) <==> x in ls && IsNew(h, x)
  {
    FilterCount(ls, (l: Listing) => IsNew(h, l));
  }

  /** The new listings keep the batch's order. */
  lemma NewListingsInOrder(ls: seq<Listing>, h: History)
    ensures IsSubsequence(NewListings(ls, h), ls)
  {
    FilterIsSubsequence(ls, (l: Listing) => IsNew(h, l));
  }

  /** When every listing's id is already a key, nothing is new. */
  lemma AllKnownNothingNew(ls: seq<Listing>, h: History)
    requires forall x :: x in ls ==> x.id in h
    ensures NewListings(ls, h) == []
  {
    FilterNone(ls, (l: Listing) => IsNew(h, l));
  }

  /** A relisting under a fresh id at a URL already stored is not new. */
  lemma UrlFallback(ls: seq<Listing>, h: History, x: Listing, k: string)
    requires k in h && h[k].listing.url == x.url
    ensures x !in NewListings(ls, h)
  {
  }

  // ------------------------------------------------------------ backfill

  /** A listing with no id but a URL takes the URL's last segment as its id;
      nothing else changes. */
  function Backfill(l: Listing): (r: Listing)
    ensures r.(id := l.id) == l
    ensures l.id != "" || l.url == "" ==> r == l
    ensures l.id == "" && l.url != "" ==> r.id == LastSegment(l.url)
  {
    if l.id == "" && l.url != "" then l.(id := LastSegment(l.url)) else l
  }

  /** The backfill applied to every listing of the batch. */
  function BackfillAll(ls: seq<Listing>): (r: seq<Listing>)
    ensures |r| == |ls| && forall i :: 0 <= i < |ls| ==> r[i] == Backfill(ls[i])
  {
    seq(|ls|, i requires 0 <= i < |ls| => Backfill(ls[i]))
  }

  /** A batch in which every listing has an id is left as it is. */
  lemma BackfillKeepsIds(ls: seq<Listing>)
    requires forall x :: x in ls ==> x.id != ""
    ensures BackfillAll(ls) == ls
  {
    forall i | 0 <= i < |ls| ensures BackfillAll(ls)[i] == ls[i] {
      assert ls[i] in ls;
    }
  }

  /** The extractor never leaves an id empty, so the backfill never changes a
      scraped batch. */
  lemma ScrapedIdsNeedNoBackfill(fetch: Fetch, now: string)
    ensures BackfillAll(Scrape(fetch, now)) == Scrape(fetch, now)
  {
    ScrapeWellFormed(fetch, now);
    BackfillKeepsIds(Scrape(fetch, now));
  }

  /** The backfill as the source runs it, one listing at a time
      (index.js:412-416). */
  method BackfillIds(current: seq<Listing>) returns (r: seq<Listing>)
    ensures r == BackfillAll(current)
  {
    r := current;
    var i := 0;
    while i < |r|
      invariant 0 <= i <= |r| == |current|
      invariant forall j :: 0 <= j < i ==> r[j] == Backfill(current[j])
      invariant forall j :: i <= j < |r| ==> r[j] == current[j]
    {
      var l := r[i];
      if l.id == "" && l.url != "" {
        r := r[i := l.(id := LastSegment(l.url))];
      }
      assert r[i] == Backfill(current[i]);
      i := i + 1;
    }
  }

  // ---------------------------------------------------- history update

  /** The history after recording `ls` in order, each under its id and
      stamped `now`; a later listing with the same id overwrites an earlier
      one. */
  function Recorded(h: History, ls: seq<Listing>, now: string): History
    decreases |ls|
  {
    if |ls| == 0 then h
    else
      var l := ls[|ls| - 1];
      Recorded(h, ls[..|ls| - 1], now)[l.id := Seen(l, now)]
  }

  /** The ids of a batch. */
  function IdsOf(ls: seq<Listing>): set<string>
  {
    set l | l in ls :: l.id
  }

  /** The recorded history's keys are the old keys and the batch's ids. */
  lemma {:induction false} RecordedKeys(h: History, ls: seq<Listing>, now: string)
    ensures Recorded(h, ls, now).Keys == h.Keys + IdsOf(ls)
  {
    if |ls| > 0 {
      var init := ls[..|ls| - 1];
      RecordedKeys(h, init, now);
      assert ls == init + [ls[|ls| - 1]];
      assert IdsOf(ls) == IdsOf(init) + {ls[|ls| - 1].id};
    }
  }

  /** An entry whose key is no id of the batch is left unchanged. */
  lemma {:induction false} RecordedKeepsOthers(h: History, ls: seq<Listing>, now: string, k: string)
    requires k in h && k !in IdsOf(ls)
    ensures k in Recorded(h, ls, now) && Recorded(h, ls, now)[k] == h[k]
  {
    if |ls| > 0 {
      var init := ls[..|ls| - 1];
      assert ls == init + [ls[|ls| - 1]];
      assert IdsOf(init) <= IdsOf(ls);
      RecordedKeepsOthers(h, init, now, k);
    }
  }

  /** The entry under a batch id holds the last listing with that id, stamped
      `now`. */
  lemma {:induction false} RecordedLastWins(h: History, ls: seq<Listing>, now: string, j: nat)
    requires j < |ls| && forall j' :: j < j' < |ls| ==> ls[j'].id != ls[j].id
    ensures ls[j].id in Recorded(h, ls, now) && Recorded(h, ls, now)[ls[j].id] == Seen(ls[j], now)
  {
    if j < |ls| - 1 {
      var init := ls[..|ls| - 1];
      assert init[j] == ls[j];
      RecordedLastWins(h, init, now, j);
    }
  }

  /** The history update as the source runs it: each new listing written
      into the map in turn (index.js:444-449). */
  method RecordNotified(history: History, found: seq<Listing>, now: string) returns (h: History)
    ensures h == Recorded(history, found, now)
  {
    h := history;
    var i := 0;
    while i < |found|
      invariant 0 <= i <= |found|
      invariant h == Recorded(history, found[..i], now)
    {
      assert found[..i + 1][..i] == found[..i];
      h := h[found[i].id := Seen(found[i], now)];
      i := i + 1;
    }
    assert found[..|found|] == found;
  }

  /** Recording the new listings changes no stored entry: their ids are not
      keys yet. */
  lemma RecordingKeepsHistory(h: History, ls: seq<Listing>, now: string)
    ensures h.Keys <= Recorded(h, NewListings(ls, h), now).Keys
    ensures forall k :: k in h ==> Recorded(h, NewListings(ls, h), now)[k] == h[k]
  {
    var found := NewListings(ls, h);
    forall k | k in h ensures k in Recorded(h, found, now) && Recorded(h, found, now)[k] == h[k] {
      RecordedKeepsOthers(h, found, now, k);
    }
  }

  /** Idempotence: filtering the same batch against the history updated
      with its new listings finds nothing new. */
  lemma SecondRunFindsNothing(h: History, ls: seq<Listing>, now: string)
    ensures NewListings(ls, Recorded(h, NewListings(ls, h), now)) == []
  {
    var found := NewListings(ls, h);
    var h' := Recorded(h, found, now);
    NewListingsCount(ls, h);
    RecordedKeys(h, found, now);
    RecordingKeepsHistory(h, ls, now);
    forall x | x in ls ensures !IsNew(h', x) {
      if IsNew(h, x) {
        assert x in found;
        assert x.id in IdsOf(found);
      } else if x.id !in h {
        var k :| k in h && h[k].listing.url == x.url;
        assert h'[k] == h[k];
      }
    }
    FilterNone(ls, (l: Listing) => IsNew(h', l));
  }

  // --------------------------------------------------------------- check

  /** One check: scrape, stop early on an empty batch, backfill ids, filter
      the new listings, report them and record them. `found` is what is
      mailed; `saved` says whether the history is written back. The records
      are stamped `scrapedAt` when they are extracted and the history entries
      `notifiedAt` after the mail step; the mail step's outcome does not
      matter, since `sendEmail` reports a delivery failure by its result,
      which the caller ignores (index.js:389-465). */
  method CheckNewListings(history: History, fetch: Fetch, scrapedAt: string, notifiedAt: string)
    returns (found: seq<Listing>, updated: History, saved: bool)
    ensures Scrape(fetch, scrapedAt) == [] ==> found == [] && updated == history && !saved
    ensures found == NewListings(BackfillAll(Scrape(fetch, scrapedAt)), history)
    ensures saved <==> |found| > 0
    ensures updated == if saved then Recorded(history, found, notifiedAt) else history
  {
    var current := ScrapeListings(fetch, scrapedAt);
    if |current| == 0 {
      return [], history, false;
    }
    current := BackfillIds(current);
    found := NewListings(current, history);
    updated := history;
    saved := false;
    if |found| > 0 {
      updated := RecordNotified(history, found, notifiedAt);
      saved := true;
    }
  }
}
