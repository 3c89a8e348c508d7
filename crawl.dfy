/**
 * `LinkChecker.crawl_website`: a breadth-first traversal from the base
 * address over a FIFO queue of (address, depth) entries, a set of visited
 * pages and an accumulating list of every link found on an expanded page.
 *
 * The loop is specified by `Run`, which performs the same steps on a
 * `CrawlState`; the method is proved to compute `Run` from the initial
 * state, and the properties of the crawl are lemmas about `Run`.
 */
module Crawl {
  import opened Model
  import Extract

  /** The pages a GET can reach, with what each GET returns; a missing page is a failed fetch. */
  type Web = map<Url, PageResponse>

  /** The links `extract_links` gives for each page a GET reaches; any other page gives none. */
  type Site = map<Url, seq<Link>>

  /**
   * The fixed inputs of one crawl: the links of every page, the base
   * address, the depth bound, and `urlparse(..).netloc`, left
   * uninterpreted.
   */
  datatype Crawler = Crawler(site: Site, base: Url, maxDepth: int, netloc: Url -> string)

  /** One entry of the `to_visit` queue. */
  datatype Entry = Entry(url: Url, depth: int)

  /**
   * The state of the crawl loop: the visited set, the queue and the links
   * found so far; and, for the proofs, the page on which each queue entry
   * was found (`from`, parallel to `queue`), the expanded pages in order,
   * the depth at which each was expanded and the page it was found on.
   */
  datatype CrawlState = CrawlState(
    visited: set<Url>,
    queue: seq<Entry>,
    from: seq<Url>,
    allLinks: seq<Link>,
    expanded: seq<Url>,
    level: map<Url, int>,
    parent: map<Url, Url>)

  /** The response a GET of `url` gives. */
  function Fetch(web: Web, url: Url): PageResponse
  {
    if url in web then web[url] else Failed("no response")
  }

  /** The site `web` presents to a crawl from `base`: the links `extract_links(url, base)` returns for each page. */
  function SiteOf(web: Web, base: Url, join: (Url, Url) -> Url): Site
  {
    map url | url in web :: Extract.PageLinks(web[url], url, base, join)
  }

  /** What `extract_links(url, base)` returns during the crawl. */
  function LinksOf(c: Crawler, url: Url): seq<Link>
  {
    if url in c.site then c.site[url] else []
  }

  /** A page outside the web fails to load and yields no links, so `SiteOf` loses nothing. */
  lemma SiteOfFetch(web: Web, base: Url, join: (Url, Url) -> Url, url: Url, maxDepth: int, netloc: Url -> string)
    ensures LinksOf(Crawler(SiteOf(web, base, join), base, maxDepth, netloc), url)
            == Extract.PageLinks(Fetch(web, url), url, base, join)
  {
  }

  /** `urlparse(url).netloc == urlparse(base).netloc`. */
  predicate SameHost(netloc: Url -> string, base: Url, url: Url)
  {
    netloc(url) == netloc(base)
  }

  /** Page `from` holds a link whose target is `to`. */
  ghost predicate LinksTo(c: Crawler, from: Url, to: Url)
  {
    exists i :: 0 <= i < |LinksOf(c, from)| && LinksOf(c, from)[i].url == to
  }

  /** The links of `pages`, page after page, each in extraction order. */
  function Gathered(c: Crawler, pages: seq<Url>): seq<Link>
  {
    if pages == [] then []
    else Gathered(c, pages[..|pages| - 1]) + LinksOf(c, pages[|pages| - 1])
  }

  /**
   * The `include_external=False` filter: the order-preserving subsequence
   * of `links` whose targets share the base's host.
   */
  function KeepSameHost(links: seq<Link>, netloc: Url -> string, base: Url): (r: seq<Link>)
    ensures |r| <= |links|
    ensures forall l :: l in r <==> l in links && SameHost(netloc, base, l.url)
  {
    if links == [] then []
    else
      var last := links[|links| - 1];
      var prefix := KeepSameHost(links[..|links| - 1], netloc, base);
      assert links == links[..|links| - 1] + [last];
      prefix + (if SameHost(netloc, base, last.url) then [last] else [])
  }

  /**
   * The entries the crawl enqueues for the links of a page expanded at
   * `depth`: one at `depth + 1` for each same-host link not yet visited,
   * in link order, and none at all once `depth` reaches the bound.
   */
  function Children(links: seq<Link>, depth: int, visited: set<Url>, maxDepth: int,
                    netloc: Url -> string, base: Url): (r: seq<Entry>)
    ensures |r| <= |links|
    ensures r != [] ==> depth < maxDepth
  {
    if links == [] then []
    else
      var last := links[|links| - 1];
      Children(links[..|links| - 1], depth, visited, maxDepth, netloc, base) +
        (if SameHost(netloc, base, last.url) && depth < maxDepth && last.url !in visited
         then [Entry(last.url, depth + 1)] else [])
  }

  /** Every child is one level down, within the bound, unvisited, on the base's host and linked from the page. */
  lemma {:induction false} ChildrenSound(links: seq<Link>, depth: int, visited: set<Url>, maxDepth: int,
                                         netloc: Url -> string, base: Url)
    ensures forall e :: e in Children(links, depth, visited, maxDepth, netloc, base) ==>
      && e.depth == depth + 1 && depth < maxDepth && e.url !in visited && SameHost(netloc, base, e.url)
      && exists i :: 0 <= i < |links| && links[i].url == e.url
  {
    if links != [] {
      var prefix := links[..|links| - 1];
      ChildrenSound(prefix, depth, visited, maxDepth, netloc, base);
      assert forall i :: 0 <= i < |prefix| ==> prefix[i] == links[i];
    }
  }

  /** Every same-host, unvisited link target becomes a child while the bound allows. */
  lemma {:induction false} ChildrenComplete(links: seq<Link>, depth: int, visited: set<Url>, maxDepth: int,
                                            netloc: Url -> string, base: Url)
    ensures forall i :: 0 <= i < |links| && SameHost(netloc, base, links[i].url) && depth < maxDepth
                        && links[i].url !in visited
                        ==> Entry(links[i].url, depth + 1) in Children(links, depth, visited, maxDepth, netloc, base)
  {
    if links != [] {
      var prefix := links[..|links| - 1];
      ChildrenComplete(prefix, depth, visited, maxDepth, netloc, base);
      assert forall i :: 0 <= i < |prefix| ==> prefix[i] == links[i];
    }
  }

  /** The state before the first iteration. */
  function Initial(base: Url): CrawlState
  {
    CrawlState({}, [Entry(base, 0)], [base], [], [], map[], map[])
  }

  /**
   * One iteration of the crawl loop: pop the head entry; skip it when it
   * was visited or lies beyond the bound; otherwise mark it visited, record
   * all its links and enqueue its children.
   */
  function Step(c: Crawler, st: CrawlState): (r: CrawlState)
    requires st.queue != [] && |st.from| == |st.queue|
    // at most the head is newly visited, and only when it is new and within the bound
    ensures || r.visited == st.visited
            || (&& st.queue[0].url !in st.visited && st.queue[0].depth <= c.maxDepth
                && r.visited == st.visited + {st.queue[0].url})
  {
    var e := st.queue[0];
    if e.url in st.visited || e.depth > c.maxDepth then
      st.(queue := st.queue[1..], from := st.from[1..])
    else
      var visited := st.visited + {e.url};
      var links := LinksOf(c, e.url);
      var children := Children(links, e.depth, visited, c.maxDepth, c.netloc, c.base);
      CrawlState(visited, st.queue[1..] + children, st.from[1..] + seq(|children|, _ => e.url),
                 st.allLinks + links, st.expanded + [e.url], st.level[e.url := e.depth],
                 if e.url != c.base then st.parent[e.url := st.from[0]] else st.parent)
  }

  /**
   * A step works the queue first in, first out (the rest of the queue stays
   * ahead of anything enqueued), only ever appends links, and when it
   * visits nothing it changes nothing but the queue.
   */
  lemma StepShape(c: Crawler, st: CrawlState)
    requires st.queue != [] && |st.from| == |st.queue|
    ensures |st.queue| - 1 <= |Step(c, st).queue| && Step(c, st).queue[..|st.queue| - 1] == st.queue[1..]
    ensures |st.allLinks| <= |Step(c, st).allLinks| && Step(c, st).allLinks[..|st.allLinks|] == st.allLinks
    ensures Step(c, st).visited == st.visited ==>
      Step(c, st).allLinks == st.allLinks && |Step(c, st).queue| == |st.queue| - 1
  {
  }

  /**
   * Every address the crawl can ever hold: the base and the target of every
   * link on every page of the web. It is finite, which bounds the crawl.
   */
  ghost function Universe(c: Crawler): set<Url>
  {
    {c.base} + set u, i | u in c.site && 0 <= i < |c.site[u]| :: c.site[u][i].url
  }

  /** The shape `Run` needs: `from` parallel to the queue, and everything inside the universe. */
  ghost predicate Running(c: Crawler, st: CrawlState)
  {
    && |st.from| == |st.queue|
    && st.visited <= Universe(c)
    && forall i :: 0 <= i < |st.queue| ==> st.queue[i].url in Universe(c)
  }

  lemma InitialRunning(c: Crawler)
    ensures Running(c, Initial(c.base))
  {
  }

  /** The children of a page are inside the universe. */
  lemma ChildrenInUniverse(c: Crawler, u: Url, depth: int, visited: set<Url>)
    ensures forall e :: e in Children(LinksOf(c, u), depth, visited, c.maxDepth, c.netloc, c.base) ==> e.url in Universe(c)
  {
    var links := LinksOf(c, u);
    ChildrenSound(links, depth, visited, c.maxDepth, c.netloc, c.base);
    forall e | e in Children(links, depth, visited, c.maxDepth, c.netloc, c.base)
      ensures e.url in Universe(c)
    {
      var i :| 0 <= i < |links| && links[i].url == e.url;
      assert u in c.site;
    }
  }

  /** Visiting a page of `u` not yet visited leaves fewer pages of `u` to visit. */
  lemma VisitProgress(u: set<Url>, visited: set<Url>, x: Url)
    requires x in u && x !in visited
    ensures |u - (visited + {x})| < |u - visited|
  {
    assert u - (visited + {x}) == (u - visited) - {x};
  }

  /** Popping the head and appending entries of `u` keeps every queued address in `u`. */
  lemma QueueWithin(u: set<Url>, queue: seq<Entry>, children: seq<Entry>)
    requires queue != [] && forall i :: 0 <= i < |queue| ==> queue[i].url in u
    requires forall e :: e in children ==> e.url in u
    ensures forall i :: 0 <= i < |queue| - 1 + |children| ==> (queue[1..] + children)[i].url in u
  {
    var q := queue[1..] + children;
    assert forall i :: 0 <= i < |q| ==> if i < |queue| - 1 then q[i] == queue[i + 1] else q[i] in children;
  }

  /** A step keeps the shape and makes progress: a new page is visited, or the queue shrinks. */
  lemma StepRunning(c: Crawler, st: CrawlState)
    requires Running(c, st) && st.queue != []
    ensures Running(c, Step(c, st))
    ensures || |Universe(c) - Step(c, st).visited| < |Universe(c) - st.visited|
            || (Step(c, st).visited == st.visited && |Step(c, st).queue| < |st.queue|)
  {
    var e := st.queue[0];
    if !(e.url in st.visited || e.depth > c.maxDepth) {
      var visited := st.visited + {e.url};
      var children := Children(LinksOf(c, e.url), e.depth, visited, c.maxDepth, c.netloc, c.base);
      VisitProgress(Universe(c), st.visited, e.url);
      ChildrenInUniverse(c, e.url, e.depth, visited);
      QueueWithin(Universe(c), st.queue, children);
    }
  }

  /** The crawl loop run to completion from `st`. */
  ghost function Run(c: Crawler, st: CrawlState): CrawlState
    requires Running(c, st)
    decreases |Universe(c) - st.visited|, |st.queue|
  {
    if st.queue == [] then st
    else
      StepRunning(c, st);
      Run(c, Step(c, st))
  }

  /** The state in which `crawl_website` leaves its loop. */
  ghost function Final(c: Crawler): CrawlState
  {
    InitialRunning(c);
    Run(c, Initial(c.base))
  }

  /** What `crawl_website` returns: the links gathered, filtered when external links are excluded. */
  ghost function CrawlLinks(c: Crawler, includeExternal: bool): seq<Link>
  {
    if includeExternal then Final(c).allLinks else KeepSameHost(Final(c).allLinks, c.netloc, c.base)
  }

  /**
   * The inner loop of the crawl over the links of one expanded page:
   * every link is recorded, and same-host links not yet visited are
   * enqueued one level down while the bound allows.
   */
  method RecordLinks(pageLinks: seq<Link>, depth: int, visited: set<Url>, maxDepth: int,
                     netloc: Url -> string, base: Url, toVisit: seq<Entry>, allLinks: seq<Link>)
    returns (toVisit': seq<Entry>, allLinks': seq<Link>)
    ensures allLinks' == allLinks + pageLinks
    ensures toVisit' == toVisit + Children(pageLinks, depth, visited, maxDepth, netloc, base)
  {
    toVisit', allLinks' := toVisit, allLinks;
    var j := 0;
    while j < |pageLinks|
      invariant 0 <= j <= |pageLinks|
      invariant allLinks' == allLinks + pageLinks[..j]
      invariant toVisit' == toVisit + Children(pageLinks[..j], depth, visited, maxDepth, netloc, base)
    {
      var link := pageLinks[j];
      assert pageLinks[..j + 1][..j] == pageLinks[..j];
      allLinks' := allLinks' + [link];
      if SameHost(netloc, base, link.url) && depth < maxDepth {
        if link.url !in visited {
          toVisit' := toVisit' + [Entry(link.url, depth + 1)];
        }
      }
      j := j + 1;
    }
    assert pageLinks[..j] == pageLinks;
  }

  /** `crawl_website(base, max_depth, include_external)` over `web`. */
  method CrawlWebsite(web: Web, base: Url, maxDepth: int, includeExternal: bool,
                      netloc: Url -> string, join: (Url, Url) -> Url)
    returns (links: seq<Link>)
    ensures links == CrawlLinks(Crawler(SiteOf(web, base, join), base, maxDepth, netloc), includeExternal)
  {
    ghost var c := Crawler(SiteOf(web, base, join), base, maxDepth, netloc);
    var visited: set<Url> := {};
    var toVisit := [Entry(base, 0)];
    var allLinks: seq<Link> := [];
    ghost var from: seq<Url> := [base];
    ghost var expanded: seq<Url> := [];
    ghost var level: map<Url, int> := map[];
    ghost var parent: map<Url, Url> := map[];
    InitialRunning(c);

    while toVisit != []
      invariant Running(c, CrawlState(visited, toVisit, from, allLinks, expanded, level, parent))
      invariant Run(c, CrawlState(visited, toVisit, from, allLinks, expanded, level, parent)) == Final(c)
      decreases |Universe(c) - visited|, |toVisit|
    {
      ghost var st := CrawlState(visited, toVisit, from, allLinks, expanded, level, parent);
      StepRunning(c, st);
      var current := toVisit[0];
      toVisit := toVisit[1..];
      if current.url in visited || current.depth > maxDepth {
        from := from[1..];
        assert CrawlState(visited, toVisit, from, allLinks, expanded, level, parent) == Step(c, st);
        continue;
      }
      visited := visited + {current.url};
      var pageLinks := Extract.ExtractLinks(Fetch(web, current.url), current.url, base, join);
      SiteOfFetch(web, base, join, current.url, maxDepth, netloc);
      ghost var children := Children(pageLinks, current.depth, visited, maxDepth, netloc, base);
      toVisit, allLinks := RecordLinks(pageLinks, current.depth, visited, maxDepth, netloc, base, toVisit, allLinks);
      expanded, level := expanded + [current.url], level[current.url := current.depth];
      parent := if current.url != base then parent[current.url := from[0]] else parent;
      from := from[1..] + seq(|children|, _ => current.url);
      assert CrawlState(visited, toVisit, from, allLinks, expanded, level, parent) == Step(c, st);
    }
    links := allLinks;
    if !includeExternal {
      links := KeepSameHost(allLinks, netloc, base);
    }
  }
}
