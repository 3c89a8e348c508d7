/**
 * The entities the crawl-and-verify engine passes around: parsed page
 * elements, fetched pages, discovered links, HEAD probe responses and the
 * per-address outcome of a check.
 */
module Model {
  import opened Wrappers

  /** Addresses are compared by exact string equality, never normalised. */
  type Url = string

  /**
   * One element of a parsed page as the HTML parser reports it: its tag
   * name, its `href`, `src` and `alt` attributes when present, and its
   * text as `get_text(strip=True)` gives it: every text fragment inside
   * the element stripped of surrounding whitespace, the fragments joined
   * with no separator.
   */
  datatype Element = Element(
    name: string,
    href: Option<string>,
    src: Option<string>,
    alt: Option<string>,
    text: string)

  /**
   * What a GET of a page gives the extractor: a status and the parsed
   * document, or the message of the exception raised on the way.
   */
  datatype PageResponse =
    | Page(status: int, elements: seq<Element>)
    | Failed(message: string)

  /** One discovered reference: target, text, tag name and the page it was on. */
  datatype Link = Link(url: Url, text: string, tag: string, foundOn: Url)

  /** What a HEAD request (following redirects) gives the checker. */
  datatype Probe =
    | Responded(status: int, finalUrl: Url)
    | Raised(message: string)

  /** The record `check_url` returns for one address. */
  datatype CheckOutcome = CheckOutcome(
    url: Url,
    status: Option<int>,
    accessible: bool,
    error: Option<string>,
    finalUrl: Option<Url>)

  /** No element occurs twice. */
  predicate Distinct<T(==)>(s: seq<T>)
  {
    forall i, j :: 0 <= i < j < |s| ==> s[i] != s[j]
  }

  /** The targets of `links`, in order. */
  function UrlsOf(links: seq<Link>): seq<Url>
  {
    seq(|links|, k requires 0 <= k < |links| => links[k].url)
  }

  /** The set of targets of `links` (`set(link['url'] for link in links)`). */
  function UrlSet(links: seq<Link>): set<Url>
  {
    set l | l in links :: l.url
  }
}
