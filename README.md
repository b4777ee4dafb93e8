# Autotrader listing monitor: the listing pipeline in Dafny

The monitor polls a results page of a used-car site. Each time, it turns the
page into listing records and mails the records it has not seen before. This
project models that pipeline as it is written in `index.js`:

- **The blocking guard and the listing locator** (`scrapeListings`). A raw page
  that contains `captcha`, `cloudflare` or `security check` gives no listings.
  Otherwise the seven listing selectors are walked in order. Every element
  that any of them matches is turned into a record.
- **The field extractor.** Title, price and location each use an ordered
  table of selectors, and the first non-empty trimmed text wins. The title
  falls back to the first `h1`–`h5` heading. The URL comes from a table of
  link selectors, then from the first anchor, and is resolved against the site
  origin. The id is the URL's last `/` segment, or `listing-<index>`. Year and
  mileage come from the first descendant text that the year or mileage regular
  expression matches.
- **The relevance filter.** A record is kept when its lower-cased text or title
  looks like a Golf GTI Performance.
- **The novelty tracker** (`checkNewListings`). It backfills a missing id from
  the URL. A listing is new when neither its id nor its URL is in the seen
  history.
- **The history update.** Each new listing is stored under its id with the
  notification time. The history is written back only when something was new,
  and an empty scrape returns before anything happens.

The model has eight modules:

- `Seqs`: Option, order-preserving filter, flattening.
- `Strings`: `trim`, `\s`, `\d`, `\w`, `includes`, `toLowerCase`, and decimal
  rendering.
- `Dom`: an abstract parsed page and a small selector language.
- `Patterns`: the two regular expressions. Each is stated as what a match is
  and as a leftmost search, and the two are proved equal.
- `Extractor`: the field extractor.
- `Relevance`: the relevance filter.
- `Locator`: the blocking guard, the selector walk, and the scrape as a whole.
- `Novelty`: the novelty tracker, the backfill, the history update, and one
  whole check.

Where the source changes things step by step, the model does too. The
selector walk, the per-element callback, the `break` loops over selector
tables, the `yearFound`/`mileageFound` scans, the id backfill and the history
update are all methods with loops. Each method is proved equal to a function,
and the properties are proved as lemmas about that function.

**The comment and the loop disagree; the model follows the loop.** The
comment at index.js:218 says the selectors are tried until one of them
matches. The loop at index.js:221-370 has no `break`, so every selector with
matches contributes its records, in selector order. `Locator.Scrape` models
the loop as written. `Locator.ScrapeMembers` states that the result holds the
relevant record of every matched element of every selector.
`Locator.OverlappingSelectorsDuplicate` proves that a record kept through two
selectors occurs at least twice. The two records are equal when, for example,
the element's URL has a non-empty last segment. When the URL is empty and
the element's index differs between the two selectors, the ids differ
(`listing-<j1>` and `listing-<j2>`). The two records are then distinct, but
both are reported, by `Locator.ScrapeMembers`.

The `yearFound`/`mileageFound` scans (index.js:313-336) visit every
descendant and ignore the ones after the first match. The model keeps that
shape, and `Extractor.ScanFirstIsFirstHit` proves that the result is the
first match's value.

## Model

| member | source | states |
|---|---|---|
| Seqs.Filter | index.js:419-430 | `Array.prototype.filter`: the result is no longer than the input, and every element of it is in the input and passes the test |
| Seqs.FilterCount | index.js:419-430 | filtering keeps each element that passes the test exactly as often as it occurs, and drops every other one |
| Seqs.FilterIsSubsequence | index.js:419-430 | filtering preserves order: the result is an order-preserving subsequence of the input |
| Seqs.FilterNone | index.js:419-430 | filtering a sequence in which nothing passes the test gives the empty sequence |
| Seqs.FlattenMembers | index.js:221-228 | an element is in the concatenation of the parts exactly when it is in one of the parts |
| Seqs.FlattenTwice | index.js:221-228 | an element in two different parts occurs at least twice in the concatenation |
| Strings.Trim | index.js:234 | definition of `String.prototype.trim`; its properties are TrimIsCore, TrimEdges, TrimEmptyIff and TrimIdempotent |
| Strings.Contains | index.js:200 | definition of `includes` as a search from the left; its property is ContainsIff |
| Strings.TrimStart | index.js:234 | the leading-space step of `trim`: the result is a suffix of the input, everything dropped is white space, and the result does not start with white space |
| Strings.TrimEnd | index.js:234 | the trailing-space step of `trim`: the result is a prefix of the input, everything dropped is white space, and the result does not end with white space |
| Strings.TrimIsCore | index.js:234 | `trim` returns a slice of its input, and everything outside the slice is white space |
| Strings.TrimEdges | index.js:234 | the result of `trim` neither starts nor ends with white space |
| Strings.TrimEmptyIff | index.js:244-245 | `trim` gives "" exactly when its input is all white space, which is when the source's `if (t)` test fails |
| Strings.TrimIdempotent | index.js:234 | trimming twice is the same as trimming once |
| Strings.ContainsIff | index.js:200 | `includes` is true exactly when the substring occurs at some position |
| Strings.OccursThenContains | index.js:200 | an occurrence at any position is found by `includes` |
| Strings.ContainsTransitive | index.js:355-356 | if `mid` occurs in `s` and `sub` occurs in `mid`, then `sub` occurs in `s` |
| Strings.LowerChar | index.js:353 | `toLowerCase` of one character never yields an ASCII capital |
| Strings.ToLower | index.js:353 | `toLowerCase` never yields an ASCII capital |
| Strings.ToLowerAppend | index.js:353 | lower-casing a concatenation lower-cases each part |
| Strings.NatToString | index.js:283 | the rendering of an index in `listing-${index}` is a non-empty string of digits |
| Strings.NatToStringRoundTrip | index.js:283 | reading the rendering back gives the index, so different indices give different synthetic ids |
| Dom.Find | index.js:244 | definition of `$element.find(sel)`: the matching descendants in document order; used by FirstTextIsFirstHit and LinkUrlIsFirstHit |
| Dom.Select | index.js:222 | definition of `$(selector)`: the matching elements of the page in document order; used by ScrapeMembers |
| Dom.FindText | index.js:244 | definition of `.find(sel).text().trim()`: the matched texts concatenated, then trimmed; its property is JoinTextBlank |
| Dom.FirstHref | index.js:266 | definition of `.attr('href')` of a selection, which reads the first matched node only; used by LinkUrlIsFirstHit |
| Dom.JoinTextBlank | index.js:244-245 | the combined text of a selection is all white space exactly when every selected node's text is |
| Patterns.YearFrom | index.js:318 | the year search from a position finds the leftmost match at or after it, and reports none only when no position matches |
| Patterns.MatchYear | index.js:318-320 | the captured year has four characters and starts with "20" |
| Patterns.YearLeftmost | index.js:318-320 | a year is found exactly when `\b(20\d{2})\b` matches somewhere, and it is the token at the leftmost matching position |
| Patterns.RunEnd | index.js:331 | the greedy `[\d,.]*` run ends at the first character that is not a digit, comma or dot |
| Patterns.SpaceEnd | index.js:331 | the greedy `\s*` run ends at the first character that is not white space |
| Patterns.MileageAt | index.js:331 | a match found at a position ends at least six characters later, within the text |
| Patterns.MileageAtSound | index.js:331 | what the search at a position reports is a match of `(\d[\d,.]*k?)\s*miles`, in any letter case, that starts there |
| Patterns.MileageAtComplete | index.js:331 | every match that starts at a position is the one the search reports, so a match has only one end |
| Patterns.MileageFrom | index.js:331 | the mileage search from a position finds the leftmost start of a match at or after it, and reports none only when none starts there or later |
| Patterns.MatchMileage | index.js:331-333 | the mileage value is at least six characters long |
| Patterns.NoEarlierMatch | index.js:331 | no match starts before a position before which the search finds none |
| Patterns.MileageSound | index.js:331-333 | the mileage value is a whole match, and it starts at the leftmost position where any match starts |
| Patterns.MileageComplete | index.js:331-333 | whenever the pattern matches somewhere, a mileage value is found |
| Patterns.YearExamplePlate | index.js:317-320 | "2017 (67)" gives the year "2017" |
| Patterns.YearExampleLastCentury | index.js:317-320 | "1999" gives no year |
| Patterns.YearExampleInsideNumber | index.js:317-320 | "120175" gives no year, because `\b` rules out the 20xx inside a longer number |
| Patterns.YearExampleFirstWins | index.js:317-320 | "Reg 2019, 2020 plate" gives the first token, "2019" |
| Patterns.MileageExampleSeparators | index.js:330-333 | "30,000 miles" matches as a whole |
| Patterns.MileageExampleThousands | index.js:330-333 | "30k miles" matches as a whole |
| Patterns.MileageExampleCase | index.js:330-333 | "1,234 Miles" matches as a whole: the word may be in any letter case |
| Patterns.MileageExampleNoNumber | index.js:330-333 | "miles away" gives no mileage |
| Patterns.MileageExampleNoWord | index.js:330-333 | "2017" gives no mileage, because "miles" does not follow |
| Extractor.FirstNonEmpty | index.js:243-249 | definition of the first-non-empty combinator; its property is FirstNonEmptyIsFirstHit |
| Extractor.FirstText | index.js:243-249 | definition of a selector table's result; its property is FirstTextIsFirstHit |
| Extractor.HeadingText | index.js:253 | definition of the trimmed text of the first `h1`–`h5` heading; used by TitleRule |
| Extractor.TitleOf | index.js:242-254 | definition of the title; its property is TitleRule |
| Extractor.UrlOf | index.js:256-280 | definition of the URL; its properties are UrlRule and UrlIsAbsolute |
| Extractor.ScanFirst | index.js:313-336 | definition of the year and mileage scan; its property is ScanFirstIsFirstHit |
| Extractor.ListingOf | index.js:230-350 | definition of the record built from one element; its properties are ExtractListing and BlankFragment |
| Extractor.FirstNonEmptyIsFirstHit | index.js:243-249 | the first-non-empty combinator gives "" exactly when every candidate is "", and otherwise a candidate all of whose predecessors are "" |
| Extractor.FirstTextIsFirstHit | index.js:237-249 | a title, price or location table gives "" exactly when every selector's trimmed text is "", and otherwise the text of a selector all of whose predecessors gave "" |
| Extractor.TitleRule | index.js:242-254 | the title is the title table's result when that is non-empty, and the first heading's trimmed text when every title selector gave "" |
| Extractor.FindFirstText | index.js:243-249 | the loop with `break` over a selector table computes the first-non-empty text |
| Extractor.Normalize | index.js:268 | an href starting with "http" is kept as it is; any other href gets the site origin in front of it. Either way the URL starts with "http" and ends with the href |
| Extractor.LinkUrl | index.js:263-272 | the URL from the link table is "" or starts with "http" |
| Extractor.LinkUrlEmptyIff | index.js:263-272 | the link table gives "" exactly when no selector's first match has an href |
| Extractor.LinkUrlHit | index.js:263-272 | a non-empty link-table URL is the normalised href of a selector whose first match has an href, all of whose predecessors have none |
| Extractor.LinkUrlIsFirstHit | index.js:263-272 | the link table gives "" exactly when no selector's first match has an href, and otherwise the normalised href of a selector all of whose predecessors had none |
| Extractor.UrlRule | index.js:256-280 | the URL is the link table's result when that is non-empty; otherwise it is the first anchor's normalised href, or "" when that anchor has no href |
| Extractor.FindLink | index.js:263-272 | the loop with `break` over the link table computes the link-table URL |
| Extractor.FindUrl | index.js:257-280 | the link table followed by the anchor fallback computes the element's URL |
| Extractor.NormalizeIdempotent | index.js:268 | normalising a normalised URL changes nothing |
| Extractor.UrlIsAbsolute | index.js:257-280 | every URL the extractor produces is "" or starts with "http" |
| Extractor.LastSegment | index.js:283 | `split('/').pop()` is the suffix of the URL after its last '/': it contains no '/', and a '/' comes right before it |
| Extractor.IdFor | index.js:283 | the id is never empty |
| Extractor.LastSegmentEmptyIff | index.js:283 | the last segment is empty exactly when the URL is empty or ends in '/' |
| Extractor.LastSegmentAfterSlash | index.js:283 | the last segment of `prefix/seg`, for a `seg` without '/', is `seg` |
| Extractor.IdRule | index.js:283 | the id is either the URL's non-empty last segment, or `listing-<index>` exactly when the URL is empty or ends in '/' |
| Extractor.RelativeLinkId | index.js:268-283 | a relative link `dir/seg` is resolved against the origin, and its last segment becomes the id whatever the index |
| Extractor.TrailingSlashExample | index.js:283 | a URL ending in '/' gives the synthetic id of the element's index, for example `listing-3` |
| Extractor.MatchPattern | index.js:318-333 | a pattern's extracted value, when there is one, is non-empty |
| Extractor.FirstSomeIsFirstHit | index.js:313-323 | first-match selection gives "" exactly when no candidate matched, and otherwise the value of the first match |
| Extractor.ScanFirstIsFirstHit | index.js:313-336 | the year or mileage is "" exactly when no descendant's trimmed text matches, and otherwise the value of the first matching descendant in document order |
| Extractor.ScanDescendants | index.js:313-336 | the `each` loop with its found flag visits every descendant and keeps the first match only |
| Extractor.ExtractListing | index.js:230-350 | the per-element callback builds the record field by field; it equals the extractor's record, whose id is non-empty and whose first-seen stamp is the scrape time |
| Extractor.FirstTextOfNothing | index.js:243-249 | a table none of whose selectors matches gives "" |
| Extractor.LinkUrlOfNothing | index.js:263-272 | a link table none of whose selectors matches gives "" |
| Extractor.ScanOfNothing | index.js:313-336 | a scan in which no text matches gives "" |
| Extractor.BlankFragment | index.js:282-296 | extraction never fails: when no rule applies, every free-text field is "" and the id is `listing-<index>`, which is still non-empty |
| Relevance.IsRelevant | index.js:353-361 | definition of the relevance test as the source writes it; its properties are RelevanceReduces and TitleGtiIsRelevant |
| Relevance.RelevanceReduces | index.js:353-361 | a record is kept exactly when its lower-cased full text contains both "gti" and "performance", or its lower-cased title contains "gti" |
| Relevance.ContainsLower | index.js:353 | an occurrence survives lower-casing of both strings |
| Relevance.LowerGtiChars | index.js:361 | three characters spelling "gti" in any letter case lower-case to "gti" |
| Relevance.LowerGti | index.js:361 | any letter-case spelling of "gti" lower-cases to "gti" |
| Relevance.TitleGtiIsRelevant | index.js:361 | a title that contains "GTI" in any letter case makes the record relevant, whatever the full text says |
| Locator.Blocked | index.js:200 | definition of the blocking guard, case-sensitive; used by ScrapeMembers and ScrapeListings |
| Locator.Kept | index.js:228-368 | definition of the kept records of the first n matched elements of one selector; its property is KeptMembers |
| Locator.KeptOf | index.js:228-368 | definition of the kept records of all of one selector's matches; its property is KeptOfIff |
| Locator.Collected | index.js:221-370 | definition of the walk's result; its properties are CollectedMembers and OverlapCounts |
| Locator.Scrape | index.js:200-228 | definition of what `scrapeListings` returns; its properties are ScrapeMembers, ScrapeWellFormed and NoMatchYieldsNothing |
| Locator.KeptMembers | index.js:228-368 | a record is kept from the first n elements exactly when it is the kept record of one of them, extracted at its own index |
| Locator.KeptOfIff | index.js:228-368 | a selector's kept records contain a record exactly when it is the kept record of one of that selector's matches |
| Locator.CollectedMembers | index.js:221-370 | the walk over all selectors keeps exactly the kept records of all their matches |
| Locator.OverlapCounts | index.js:221-370 | a kept record from two different selectors occurs at least twice in the walk's result |
| Locator.PageMembers | index.js:221-370 | what an unblocked page yields is exactly its relevant matched records |
| Locator.ScrapeMembers | index.js:200-228 | a record is scraped exactly when the fetch succeeded, the page is not blocked, and the record is the relevant record of some element that a listing selector matches, extracted at that element's index among the selector's matches |
| Locator.ScrapeWellFormed | index.js:283-362 | every scraped record has a non-empty id, is relevant and carries the scrape time |
| Locator.NoMatchYieldsNothing | index.js:372-378 | when no listing selector matches any element, the scrape returns an empty list |
| Locator.OverlappingSelectorsDuplicate | index.js:221-228 | the walk is not first-match-wins: on an unblocked page, a record kept through two different selectors occurs at least twice in the result |
| Locator.ScrapeListings | index.js:200-228 | the scrape method returns the modelled scrape: empty for a failed fetch or a blocked page, and otherwise only well-formed relevant records |
| Locator.CollectListings | index.js:221-370 | the loop over all selectors, with no early exit, concatenates every selector's kept records in selector order |
| Locator.AppendKept | index.js:228-368 | the `each` callback over one selector's matches appends exactly that selector's kept records, in document order |
| Novelty.SeenByUrl | index.js:424-427 | definition of the URL fallback: some stored record has the URL; used by UrlFallback |
| Novelty.IsNew | index.js:419-430 | definition of the novelty test; its property is NewListingsCount |
| Novelty.NewListings | index.js:419-430 | the new listings are listings of the batch that are new against the history |
| Novelty.NewListingsCount | index.js:419-430 | a listing is reported exactly when it is in the batch and its id is no history key and its URL is in no stored record, and as often as it occurs in the batch, since copies within a batch are not checked against each other |
| Novelty.NewListingsInOrder | index.js:419-430 | the new listings keep the batch's order |
| Novelty.AllKnownNothingNew | index.js:421 | when every id of the batch is a history key, nothing is new |
| Novelty.UrlFallback | index.js:424-429 | a relisting under a fresh id at a URL that is already stored is not new |
| Novelty.Backfill | index.js:412-416 | the backfill changes only the id, and only when the id is empty and the URL is not; it then sets the id to the URL's last segment |
| Novelty.BackfillKeepsIds | index.js:412-416 | a batch in which every listing has an id is left as it is |
| Novelty.ScrapedIdsNeedNoBackfill | index.js:412-416 | because the extractor never leaves an id empty, the backfill never changes a scraped batch |
| Novelty.BackfillIds | index.js:412-416 | the in-place loop over the batch computes the backfilled batch |
| Novelty.Recorded | index.js:444-449 | definition of the history after recording a batch; its properties are RecordedKeys, RecordedKeepsOthers and RecordedLastWins |
| Novelty.RecordedKeys | index.js:444-449 | the updated history's keys are the old keys together with the recorded listings' ids |
| Novelty.RecordedKeepsOthers | index.js:444-449 | an entry whose key is not the id of a recorded listing is unchanged |
| Novelty.RecordedLastWins | index.js:444-449 | the entry under a recorded id holds the last listing of the batch with that id, together with the notification time |
| Novelty.RecordNotified | index.js:444-449 | the loop that writes each new listing into the map computes the recorded history |
| Novelty.RecordingKeepsHistory | index.js:444-449 | recording the new listings changes no entry that was already stored |
| Novelty.SecondRunFindsNothing | index.js:419-449 | filtering the same batch again, against the history updated with its new listings, finds nothing new |
| Novelty.CheckNewListings | index.js:390-452 | an empty scrape returns with no update. Otherwise the new listings are filtered from the backfilled scrape, and the history is written back, with them recorded, exactly when at least one listing is new |

Lemmas that only serve as proof steps, about literals, concatenation or one loop step, have no row. So do the per-position comprehensions that the functions above are built from.

## Left out

- HTTP fetch: the axios request, its headers and its timeout (index.js:172-184) are not modelled. The outcome is the `Locator.Fetch` parameter, a page or a failure. A failure means an empty result, as the catch at index.js:379-386 gives.
- The debug file: writing the raw HTML (index.js:187-191) is file I/O, and so is the page-title log line (index.js:197).
- Cheerio: HTML parsing and CSS selector matching are not modelled. The page is given as its raw markup and its elements in document order, each a node with its ancestors and descendants. The selectors the scraper uses are written out in a small selector language: tag, class, one attribute test, comma groups and one descendant combinator.
- `sendEmail` (index.js:83-165): nodemailer, the HTML template and locale date formatting are foreign calls and presentation. The model has no email step. `sendEmail` catches a delivery failure of `sendMail` (index.js:154-164) and reports it by its return value. The caller ignores that value, so after a delivery failure the history is still updated.
- Novelty.CheckNewListings: does not model a throw from `nodemailer.createTransport` (index.js:84). That call runs outside the try in `sendEmail`, so such a throw makes the `await` at index.js:441 throw into the catch at index.js:462-467, and the history update at index.js:444-452 never runs. The model always records the new listings.
- Storage: `initStorage`, `getSeenListings` and `saveSeenListings` (index.js:42-80) are file and JSON I/O. The history is an input of `Novelty.CheckNewListings`, and the result says whether it would be saved.
- Logging: `log` lines, the `foundListings` flag and its warnings (index.js:219, 226, 372-375) are not modelled, since they only log.
- Scheduling: `startMonitoring`, the interval timer and the async sequencing (index.js:471-489) are not modelled.
- `CONFIG` (index.js:8-34): the search URL and the mail credentials are not modelled.
- The per-element try/catch (index.js:229, 365-367): the modelled extractor is total, so it has no exception path.
- The whole-check try/catch (index.js:462-467): no modelled step of the check throws. The one path into it that matters is the transport throw noted above.
- Clocks: the source reads the clock for every record (index.js:295) and for every history entry (index.js:447), and the second reading comes after the mail step. The model takes one stamp for all records of a scrape (`scrapedAt`) and a separate one for all entries of a history update (`notifiedAt`).
- Locator.CollectListings: the callback in the walk applies the extractor as the function `Extractor.ListingOf`. The method form, `Extractor.ExtractListing`, is proved equal to it.
- Strings.LowerChar: `toLowerCase` is modelled for ASCII letters and for U+0130. Other non-ASCII case mappings are not modelled; they cannot turn a character into any letter of "gti" or "performance" except the U+212A KELVIN SIGN, which only matters for words with a k.
- Strings: JavaScript strings are UTF-16 code units, but the model's strings are sequences of Unicode scalar values. This differs only for characters outside the Basic Multilingual Plane.
- Novelty.IsNew: the source's `seenListings[listing.id]` also finds inherited properties of a plain object, for example an id of "constructor". The model looks up keys only.
- Novelty.BackfillIds: the source sets `listing.id` on shared objects in place. The model works on values, without aliasing between the batch and the history.
- Novelty.NewListings: the history is assumed to hold records as the program writes them, each with a `url`. Hand-edited history files are not modelled.
