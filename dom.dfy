/** An abstract document: the parsed results page as cheerio exposes it to
    the scraper. A node has a tag, a class list, attributes and its text
    content (the text of the node and all its descendants, as `.text()`
    returns it). An element is a node seen together with its ancestors and
    its descendants, both in document order. The selectors the scraper uses
    are modelled by a small selector language: a tag, a class and one
    attribute test, comma groups of those, and one descendant combinator. */
module Dom {
  import opened Seqs
  import opened Strings

  datatype Node = Node(tag: string, classes: set<string>, attrs: map<string, string>, text: string)

  datatype Element = Element(node: Node, ancestors: seq<Node>, descendants: seq<Node>)

  /** The fetched page: the raw markup as received and every element of its
      parse, in document order. */
  datatype Page = Page(raw: string, elements: seq<Element>)

  /** `[name]`, `[name="value"]`, `[name*="part"]`, or no attribute test. */
  datatype AttrTest = AnyAttr | HasAttr(name: string) | AttrIs(name: string, value: string) | AttrHas(name: string, part: string)

  /** A compound selector such as `a.advert-link` or `span[data-price]`;
      absent parts match anything, so the all-absent selector is `*`. */
  datatype Simple = Simple(tag: Option<string>, cls: Option<string>, attr: AttrTest)

  /** A comma-separated list of compound selectors, e.g. `h1, h2, h3`. */
  type Group = seq<Simple>

  /** A selector applied to the whole page: a compound selector, or
      `outer inner` (an `inner` element with an `outer` ancestor). */
  datatype PageSelector = Plain(sel: Simple) | Within(outer: Simple, inner: Simple)

  function Tag(t: string): Simple { Simple(Some(t), None, AnyAttr) }
  function Class(c: string): Simple { Simple(None, Some(c), AnyAttr) }
  function TagClass(t: string, c: string): Simple { Simple(Some(t), Some(c), AnyAttr) }
  function TagAttr(t: string, a: AttrTest): Simple { Simple(Some(t), None, a) }

  predicate AttrMatches(a: AttrTest, attrs: map<string, string>)
  {
    match a
    case AnyAttr => true
    case HasAttr(n) => n in attrs
    case AttrIs(n, v) => n in attrs && attrs[n] == v
    case AttrHas(n, p) => n in attrs && Contains(attrs[n], p)
  }

  predicate MatchesSimple(s: Simple, n: Node)
  {
    && (s.tag.None? || s.tag.value == n.tag)
    && (s.cls.None? || s.cls.value in n.classes)
    && AttrMatches(s.attr, n.attrs)
  }

  predicate MatchesGroup(g: Group, n: Node)
  {
    exists k :: 0 <= k < |g| && MatchesSimple(g[k], n)
  }

  predicate MatchesPage(ps: PageSelector, e: Element)
  {
    match ps
    case Plain(s) => MatchesSimple(s, e.node)
    case Within(o, s) => MatchesSimple(s, e.node) && exists k :: 0 <= k < |e.ancestors| && MatchesSimple(o, e.ancestors[k])
  }

  /** `$element.find(g)`: the matching descendants, in document order. */
  function Find(e: Element, g: Group): seq<Node>
  {
    Filter(e.descendants, (n: Node) => MatchesGroup(g, n))
  }

  /** `$(ps)`: the matching elements of the page, in document order. */
  function Select(page: Page, ps: PageSelector): seq<Element>
  {
    Filter(page.elements, (e: Element) => MatchesPage(ps, e))
  }

  /** `.text()` of a selection: the texts of its nodes, concatenated. */
  function JoinText(ns: seq<Node>): string
  {
    if |ns| == 0 then "" else ns[0].text + JoinText(ns[1..])
  }

  /** `$element.find(g).text().trim()`. */
  function FindText(e: Element, g: Group): string
  {
    Trim(JoinText(Find(e, g)))
  }

  /** `.attr('href')` of one node; an absent attribute and an empty one are
      both falsy in the caller, so both are "". */
  function Href(n: Node): string
  {
    if "href" in n.attrs then n.attrs["href"] else ""
  }

  /** `.attr('href')` of a selection reads its first node only. */
  function FirstHref(ns: seq<Node>): string
  {
    if |ns| > 0 then Href(ns[0]) else ""
  }

  /** A selection's text is empty after trimming exactly when every node
      in it has a text that is all white space. */
  lemma {:induction false} JoinTextBlank(ns: seq<Node>)
    ensures AllSpace(JoinText(ns)) <==> forall k :: 0 <= k < |ns| ==> AllSpace(ns[k].text)
  {
    if |ns| > 0 {
      JoinTextBlank(ns[1..]);
      var h, t := ns[0].text, JoinText(ns[1..]);
      assert JoinText(ns) == h + t;
      assert AllSpace(h + t) <==> AllSpace(h) && AllSpace(t) by {
        if AllSpace(h + t) {
          forall k | 0 <= k < |h| ensures IsSpace(h[k]) { assert h[k] == (h + t)[k]; }
          forall k | 0 <= k < |t| ensures IsSpace(t[k]) { assert t[k] == (h + t)[|h| + k]; }
        }
      }
      forall k | 0 <= k < |ns| - 1 ensures ns[1..][k] == ns[k + 1] { }
    }
  }
}
