/**
 * Result assembly in `handle_call_tool` for `scan_website_links`: the
 * distinct addresses of the crawl, the status map, the broken records,
 * where each broken address appears, and the summary counts.
 */
module Report {
  import opened Wrappers
  import opened Model
  import opened Crawl
  import opened Verify
  import CrawlProperties

  /**
   * `list(set(link['url'] for link in all_links))`: each address once.
   * The order of a Python set is not specified; the model keeps first
   * occurrences in crawl order.
   */
  function UniqueUrls(urls: seq<Url>): (r: seq<Url>)
    ensures Distinct(r)
    ensures forall u :: u in r <==> u in urls
    ensures |r| <= |urls|
  {
    if urls == [] then []
    else
      var prefix := UniqueUrls(urls[..|urls| - 1]);
      var last := urls[|urls| - 1];
      assert forall u :: u in urls <==> u in urls[..|urls| - 1] || u == last;
      if last in prefix then prefix else prefix + [last]
  }

  /** A distinct list holds exactly as many addresses as the set of its elements. */
  lemma {:induction false} DistinctCardinality(s: seq<Url>)
    requires Distinct(s)
    ensures |set u | u in s| == |s|
  {
    if s != [] {
      var front := s[..|s| - 1];
      DistinctCardinality(front);
      assert (set u | u in s) == (set u | u in front) + {s[|s| - 1]};
    }
  }

  /** The distinct addresses are the targets of the links; so `total_links` counts the distinct targets. */
  lemma UrlSetOfUnique(links: seq<Link>)
    ensures (set u | u in UniqueUrls(UrlsOf(links))) == UrlSet(links)
    ensures |UniqueUrls(UrlsOf(links))| == |UrlSet(links)|
  {
    var r := UniqueUrls(UrlsOf(links));
    DistinctCardinality(r);
    forall u | u in UrlSet(links)
      ensures u in r
    {
      var l :| l in links && l.url == u;
      var k :| 0 <= k < |links| && links[k] == l;
      assert UrlsOf(links)[k] == u;
    }
  }

  /** `{r['url']: r for r in results}`: a later record for the same address replaces an earlier one. */
  function StatusMap(results: seq<CheckOutcome>): (m: map<Url, CheckOutcome>)
    ensures forall u :: u in m <==> exists i :: 0 <= i < |results| && results[i].url == u
    ensures forall u :: u in m ==> m[u].url == u && m[u] in results
  {
    if results == [] then map[]
    else
      var front := results[..|results| - 1];
      var last := results[|results| - 1];
      assert forall i :: 0 <= i < |front| ==> front[i] == results[i];
      StatusMap(front)[last.url := last]
  }

  /** No two records are for the same address. */
  predicate DistinctUrls(results: seq<CheckOutcome>)
  {
    forall i, j :: 0 <= i < j < |results| ==> results[i].url != results[j].url
  }

  /** Over distinct addresses, each record is the status map's entry for its address. */
  lemma {:induction false} StatusMapOfDistinct(results: seq<CheckOutcome>)
    requires DistinctUrls(results)
    ensures forall i :: 0 <= i < |results| ==> StatusMap(results)[results[i].url] == results[i]
  {
    if results != [] {
      var front := results[..|results| - 1];
      assert forall i :: 0 <= i < |front| ==> front[i] == results[i];
      StatusMapOfDistinct(front);
    }
  }

  /** The status map of a check is keyed by exactly the addresses checked. */
  lemma StatusMapKeys(urls: seq<Url>, probe: Url -> Probe)
    ensures StatusMap(CheckAll(urls, probe)).Keys == set u | u in urls
  {
    var results := CheckAll(urls, probe);
    forall u | u in urls
      ensures u in StatusMap(results)
    {
      var j :| 0 <= j < |urls| && urls[j] == u;
      assert results[j].url == u;
    }
  }

  /** Each entry of the status map of a check is the record of its own address. */
  lemma StatusMapEntries(urls: seq<Url>, probe: Url -> Probe)
    ensures forall u :: u in StatusMap(CheckAll(urls, probe)) ==> StatusMap(CheckAll(urls, probe))[u] == CheckUrl(u, probe(u))
  {
    var results := CheckAll(urls, probe);
    var m := StatusMap(results);
    forall u | u in m
      ensures m[u] == CheckUrl(u, probe(u))
    {
      var j :| 0 <= j < |results| && results[j] == m[u];
    }
  }

  /**
   * Checking distinct addresses gives a status map with one entry per
   * address, holding that address's own record.
   */
  lemma StatusMapOfChecks(unique: seq<Url>, probe: Url -> Probe)
    requires Distinct(unique)
    ensures StatusMap(CheckAll(unique, probe)).Keys == set u | u in unique
    ensures |StatusMap(CheckAll(unique, probe)).Keys| == |unique|
    ensures forall u :: u in StatusMap(CheckAll(unique, probe)) ==> StatusMap(CheckAll(unique, probe))[u] == CheckUrl(u, probe(u))
  {
    StatusMapKeys(unique, probe);
    StatusMapEntries(unique, probe);
    DistinctCardinality(unique);
  }

  /** Every broken record of a check is the status map's entry for its address. */
  lemma BrokenInStatusMap(unique: seq<Url>, probe: Url -> Probe)
    requires Distinct(unique)
    ensures forall o :: o in Broken(CheckAll(unique, probe)) <==>
      o.url in StatusMap(CheckAll(unique, probe)) && o == StatusMap(CheckAll(unique, probe))[o.url] && !o.accessible
  {
    var results := CheckAll(unique, probe);
    var m := StatusMap(results);
    assert DistinctUrls(results);
    StatusMapOfDistinct(results);
    forall o | o in results
      ensures o.url in m && m[o.url] == o
    {
      var j :| 0 <= j < |results| && results[j] == o;
    }
  }

  /** `[r for r in results if not r['accessible']]`: the records of inaccessible addresses, in order. */
  function Broken(results: seq<CheckOutcome>): (r: seq<CheckOutcome>)
    ensures |r| <= |results|
    ensures forall o :: o in r <==> o in results && !o.accessible
  {
    if results == [] then []
    else
      var front := results[..|results| - 1];
      var last := results[|results| - 1];
      assert forall o :: o in results <==> o in front || o == last;
      Broken(front) + (if last.accessible then [] else [last])
  }

  /** Filtering for broken records keeps their order: it distributes over concatenation. */
  lemma {:induction false} BrokenAppend(a: seq<CheckOutcome>, b: seq<CheckOutcome>)
    ensures Broken(a + b) == Broken(a) + Broken(b)
  {
    if b != [] {
      var front := b[..|b| - 1];
      assert (a + b)[..|a + b| - 1] == a + front;
      BrokenAppend(a, front);
    } else {
      assert a + b == a;
    }
  }

  /** `[link for link in all_links if link['url'] == url]`: every link to `url`, in crawl order. */
  function Appearances(links: seq<Link>, url: Url): (r: seq<Link>)
    ensures |r| <= |links|
    ensures forall l :: l in r <==> l in links && l.url == url
  {
    if links == [] then []
    else
      var front := links[..|links| - 1];
      var last := links[|links| - 1];
      assert forall l :: l in links <==> l in front || l == last;
      Appearances(front, url) + (if last.url == url then [last] else [])
  }

  /** Over distinct addresses, the broken records are for distinct addresses too. */
  lemma {:induction false} BrokenDistinct(results: seq<CheckOutcome>)
    requires DistinctUrls(results)
    ensures DistinctUrls(Broken(results))
  {
    if results != [] {
      var front := results[..|results| - 1];
      var last := results[|results| - 1];
      assert forall i :: 0 <= i < |front| ==> front[i] == results[i];
      BrokenDistinct(front);
      forall o | o in front
        ensures o.url != last.url
      {
        var i :| 0 <= i < |front| && front[i] == o;
      }
    }
  }

  /** Selecting the links to one address keeps their order: it distributes over concatenation. */
  lemma {:induction false} AppearancesAppend(a: seq<Link>, b: seq<Link>, url: Url)
    ensures Appearances(a + b, url) == Appearances(a, url) + Appearances(b, url)
  {
    if b != [] {
      var front := b[..|b| - 1];
      assert (a + b)[..|a + b| - 1] == a + front;
      AppearancesAppend(a, front, url);
    } else {
      assert a + b == a;
    }
  }

  /** How many of the pages an address appears on the report lists. */
  const ListedPages: nat := 5

  /** The pages listed for one broken address, and the count of the rest when some are not listed. */
  datatype Listing = Listing(pages: seq<Url>, more: Option<nat>)

  /** The "Found on pages" part of one broken address's details. */
  function ListAppearances(appearances: seq<Link>): (r: Listing)
    ensures |r.pages| == Min(|appearances|, ListedPages)
    ensures forall i :: 0 <= i < |r.pages| ==> r.pages[i] == appearances[i].foundOn
    ensures r.more.Some? <==> |appearances| > ListedPages
    ensures |r.pages| + (if r.more.Some? then r.more.value else 0) == |appearances|
  {
    var shown := appearances[..Min(|appearances|, ListedPages)];
    Listing(seq(|shown|, i requires 0 <= i < |shown| => shown[i].foundOn),
            if |appearances| > ListedPages then Some(|appearances| - ListedPages) else None)
  }

  /**
   * The success rate as line 222 computes it: the share of distinct
   * addresses not broken, in percent. Python raises `ZeroDivisionError`
   * when there are no addresses, modelled as `Err`.
   */
  function SuccessRateAsWritten(total: nat, broken: nat): (r: Result<real, string>)
    ensures r.Err? <==> total == 0
  {
    if total == 0 then Err("division by zero")
    else Ok((total - broken) as real / total as real * 100.0)
  }

  /**
   * A scan that finds no links reaches line 222 with no addresses, and the
   * report fails: so it goes with a negative depth bound, and with a base
   * page that yields no links (it fails to load, answers with an error
   * status, or holds none).
   */
  lemma EmptyScanFails(c: Crawler, includeExternal: bool, probe: Url -> Probe)
    requires c.maxDepth < 0 || LinksOf(c, c.base) == []
    ensures SuccessRateAsWritten(|UniqueUrls(UrlsOf(CrawlLinks(c, includeExternal)))|,
                                 |Broken(CheckAll(UniqueUrls(UrlsOf(CrawlLinks(c, includeExternal))), probe))|).Err?
  {
    if c.maxDepth < 0 {
      CrawlProperties.DepthBound(c);
    } else {
      CrawlProperties.BaseWithoutLinks(c);
    }
  }

  /** The success rate with an empty scan reported as fully successful. */
  function SuccessRate(total: nat, broken: nat): (r: real)
    requires broken <= total
    ensures 0.0 <= r <= 100.0
    ensures r == 100.0 <==> broken == 0
    ensures total > 0 ==> SuccessRateAsWritten(total, broken) == Ok(r)
  {
    if total == 0 then 100.0
    else
      var rate := (total - broken) as real / total as real * 100.0;
      assert (total - broken) as real / total as real <= 1.0;
      assert broken > 0 ==> (total - broken) as real / total as real < 1.0;
      rate
  }

  /** The details reported for one broken address. */
  datatype BrokenDetail = BrokenDetail(outcome: CheckOutcome, foundOn: Listing)

  /** What the report of `scan_website_links` states, without its text. */
  datatype ScanReport = ScanReport(
    statusMap: map<Url, CheckOutcome>,
    totalLinks: nat,
    brokenCount: nat,
    successRate: real,
    broken: seq<CheckOutcome>,
    details: seq<BrokenDetail>)

  /** The details of one broken record: the pages its address appears on. */
  function Detail(o: CheckOutcome, links: seq<Link>): (d: BrokenDetail)
    ensures d.outcome == o
    // every listed page holds a link to the broken address
    ensures forall k :: 0 <= k < |d.foundOn.pages| ==>
      exists l :: l in links && l.url == o.url && l.foundOn == d.foundOn.pages[k]
    // the listed pages and the count of the rest add up to every link to the address
    ensures |d.foundOn.pages| + (if d.foundOn.more.Some? then d.foundOn.more.value else 0)
            == |Appearances(links, o.url)|
  {
    var a := Appearances(links, o.url);
    var listing := ListAppearances(a);
    assert forall k :: 0 <= k < |listing.pages| ==> a[k] in a && listing.pages[k] == a[k].foundOn;
    BrokenDetail(o, listing)
  }

  /**
   * The details of each broken record, in order: the k-th page listed for
   * a record is where the k-th link to its address was found, in crawl order.
   */
  function Details(broken: seq<CheckOutcome>, links: seq<Link>): (r: seq<BrokenDetail>)
    ensures |r| == |broken|
    ensures forall i :: 0 <= i < |broken| ==> r[i].outcome == broken[i]
    ensures forall i, k :: 0 <= i < |broken| && 0 <= k < |r[i].foundOn.pages| ==>
      && k < |Appearances(links, broken[i].url)|
      && r[i].foundOn.pages[k] == Appearances(links, broken[i].url)[k].foundOn
    // the listed pages and the count of the rest add up to every link to the address
    ensures forall i :: 0 <= i < |broken| ==>
      |r[i].foundOn.pages| + (if r[i].foundOn.more.Some? then r[i].foundOn.more.value else 0)
        == |Appearances(links, broken[i].url)|
  {
    seq(|broken|, i requires 0 <= i < |broken| => Detail(broken[i], links))
  }

  /** Each broken record's details list its own appearances. */
  lemma DetailsListAppearances(broken: seq<CheckOutcome>, links: seq<Link>)
    ensures forall i :: 0 <= i < |broken| ==>
      Details(broken, links)[i].foundOn == ListAppearances(Appearances(links, broken[i].url))
  {
  }

  /**
   * The report of `scan_website_links` for the links `allLinks` a crawl
   * returned: check each distinct address in batches, then assemble the
   * status map, the broken records, their details and the summary.
   */
  method AssembleReport(allLinks: seq<Link>, probe: Url -> Probe) returns (report: ScanReport)
    // exactly the addresses found are checked, each once, and mapped to its own record
    ensures report.statusMap.Keys == UrlSet(allLinks)
    ensures forall u :: u in report.statusMap ==> report.statusMap[u] == CheckUrl(u, probe(u))
    ensures report.totalLinks == |report.statusMap.Keys|
    // the broken records are exactly the inaccessible addresses found, each once
    ensures forall o :: o in report.broken <==> o.url in report.statusMap && o == report.statusMap[o.url] && !o.accessible
    ensures DistinctUrls(report.broken)
    ensures report.brokenCount == |report.broken| <= report.totalLinks
    // the rate is line 222's wherever that is defined
    ensures 0.0 <= report.successRate <= 100.0
    ensures report.successRate == 100.0 <==> report.brokenCount == 0
    ensures report.totalLinks > 0 ==> SuccessRateAsWritten(report.totalLinks, report.brokenCount) == Ok(report.successRate)
    // each broken address is listed with the pages it appears on
    ensures |report.details| == |report.broken|
    ensures forall i :: 0 <= i < |report.broken| ==>
      && report.details[i].outcome == report.broken[i]
      && report.details[i].foundOn == ListAppearances(Appearances(allLinks, report.broken[i].url))
  {
    var unique := UniqueUrls(UrlsOf(allLinks));
    var results, batches := CheckInBatches(unique, probe);
    var urlStatus := StatusMap(results);
    var brokenLinks := Broken(results);
    var total := |unique|;

    StatusMapOfChecks(unique, probe);
    BrokenInStatusMap(unique, probe);
    assert DistinctUrls(results);
    BrokenDistinct(results);
    UrlSetOfUnique(allLinks);
    DetailsListAppearances(brokenLinks, allLinks);

    report := ScanReport(urlStatus, total, |brokenLinks|, SuccessRate(total, |brokenLinks|),
                         brokenLinks, Details(brokenLinks, allLinks));
  }

  /**
   * `scan_website_links`: crawl, check each distinct address found, and
   * assemble the report.
   */
  method ScanWebsiteLinks(web: Web, base: Url, maxDepth: int, includeExternal: bool,
                          netloc: Url -> string, join: (Url, Url) -> Url, probe: Url -> Probe)
    returns (report: ScanReport)
    // exactly the addresses found are checked, each once, and mapped to its own record
    ensures report.statusMap.Keys == UrlSet(CrawlLinks(Crawler(SiteOf(web, base, join), base, maxDepth, netloc), includeExternal))
    ensures forall u :: u in report.statusMap ==> report.statusMap[u] == CheckUrl(u, probe(u))
    ensures report.totalLinks == |report.statusMap.Keys|
    // the broken records are exactly the inaccessible addresses found, each once
    ensures forall o :: o in report.broken <==> o.url in report.statusMap && o == report.statusMap[o.url] && !o.accessible
    ensures DistinctUrls(report.broken)
    ensures report.brokenCount == |report.broken| <= report.totalLinks
    // the rate is line 222's wherever that is defined
    ensures 0.0 <= report.successRate <= 100.0
    ensures report.successRate == 100.0 <==> report.brokenCount == 0
    ensures report.totalLinks > 0 ==> SuccessRateAsWritten(report.totalLinks, report.brokenCount) == Ok(report.successRate)
    // each broken address is listed with the pages it appears on
    ensures |report.details| == |report.broken|
    ensures forall i :: 0 <= i < |report.broken| ==>
      && report.details[i].outcome == report.broken[i]
      && report.details[i].foundOn ==
         ListAppearances(Appearances(CrawlLinks(Crawler(SiteOf(web, base, join), base, maxDepth, netloc), includeExternal), report.broken[i].url))
    // excluded external links are never checked
    ensures !includeExternal ==> forall u :: u in report.statusMap ==> SameHost(netloc, base, u)
  {
    var allLinks := CrawlWebsite(web, base, maxDepth, includeExternal, netloc, join);
    report := AssembleReport(allLinks, probe);
    if !includeExternal {
      forall u | u in report.statusMap
        ensures SameHost(netloc, base, u)
      {
        var l :| l in allLinks && l.url == u;
      }
    }
  }
}
