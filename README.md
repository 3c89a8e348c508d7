# Broken-link checker: a verified model of the crawl-and-verify engine

This project models, in Dafny, the engine of `broken_link_checker.py`:

- the post-parse part of `LinkChecker.extract_links`, which turns a parsed page into links;
- the breadth-first crawl `LinkChecker.crawl_website`;
- the classification of one HEAD request in `LinkChecker.check_url`;
- the part of `handle_call_tool` that assembles results, for both tools:
  - `scan_website_links` deduplicates the addresses found, checks them in batches of 10, builds the status map and the broken list, lists where each broken address appears, and computes the summary counts;
  - `check_specific_links` checks every requested address.

The network, the HTML parser and the URL library become inputs:

- the web is a finite map from page address to the response its GET gives (`Crawl.Web`); a page missing from the map failed to load;
- HEAD requests are a function from address to `Model.Probe`;
- the parser's output is a sequence of `Model.Element`;
- `urljoin` and `urlparse(..).netloc` are uninterpreted function parameters.

The modules are:

- `Model`: the entities.
- `Extract`: `extract_links` after parsing.
- `Crawl`: the crawl. The loop is specified by `Run`, which performs one loop step per call on a `CrawlState`. `CrawlWebsite` is proved to compute `Run` from the initial state, then the scope filter. The crawl sees each page's links through `SiteOf`, the map from each page of the web to what `extract_links` returns for it.
- `CrawlProperties`: what the crawl guarantees, proved about `Run` by induction over its steps.
- `Verify`: `check_url`, the gathering of checks, and the batching loop.
- `Report`: result assembly for `scan_website_links`.

The model follows these details of the code:

- A link is enqueued only when its target has not been visited (line 169). A target that is already queued but not yet visited is enqueued again.
- Same-host means equal `netloc` (lines 161-168). The scheme is not compared.
- All hyperlinks (`a`, `link`) come before all resource references (`img`, `script`), each group in document order (lines 118-138).
- The report lists every appearance of a broken address in crawl order, the first five of them, duplicates included (lines 239-245).
- The distinct addresses are checked after the `include_external` filter (lines 192-195), so excluded external links are never checked.

## Model

| member | source | states |
|---|---|---|
| Extract.Truncate | broken_link_checker.py:124 | hyperlink text is a prefix of the stripped text, of length min(length, 100) |
| Extract.HrefLinks | broken_link_checker.py:118-127 | at most one link per element; every hyperlink records the page it was found on, has an `a`/`link` tag and at most 100 characters of text |
| Extract.SrcLinks | broken_link_checker.py:129-138 | at most one link per element; every resource link records its page and has an `img`/`script` tag |
| Extract.PageLinks | broken_link_checker.py:107-142 | the value `extract_links` returns: at most one hyperlink and one resource link per element, each recording the page it was found on and carrying an `a`/`link`/`img`/`script` tag; Extract.PageLinksShape states the rest |
| Extract.ExtractLinks | broken_link_checker.py:107-142 | the two appending loops compute `PageLinks`: nothing for a failed fetch or a status of 400 or more, otherwise the hyperlinks followed by the resource links |
| Extract.HrefLinksAppend | broken_link_checker.py:119-127 | hyperlink extraction keeps document order: it distributes over concatenation of the element list |
| Extract.SrcLinksAppend | broken_link_checker.py:130-138 | resource-link extraction keeps document order: it distributes over concatenation |
| Extract.HrefLinksComplete | broken_link_checker.py:119-127 | every `a`/`link` element with an `href` yields its link |
| Extract.SrcLinksComplete | broken_link_checker.py:130-138 | every `img`/`script` element with a `src` yields its link |
| Extract.HrefLinksSound | broken_link_checker.py:119-127 | every hyperlink comes from a selected element, with target `urljoin(base, href)` and the truncated text |
| Extract.SrcLinksSound | broken_link_checker.py:130-138 | every resource link comes from a selected element, with target `urljoin(base, src)` and the `alt` text or `''` |
| Extract.PageLinksShape | broken_link_checker.py:107-142 | no links on an error status or failure; every hyperlink precedes every resource link; every link records its page; every target is resolved against the base address, not the page |
| Crawl.SiteOfFetch | broken_link_checker.py:157 | the links the crawl sees for a page are what `extract_links(page, base)` returns for its GET, including none for a page that fails to load |
| Crawl.KeepSameHost | broken_link_checker.py:172-176 | the `include_external=False` filter keeps exactly the links whose target has the base's netloc |
| Crawl.Children | broken_link_checker.py:167-170 | the entries one expanded page enqueues: at most one per link, and none once the depth reaches the bound; Crawl.ChildrenSound and Crawl.ChildrenComplete pin down exactly which |
| Crawl.ChildrenSound | broken_link_checker.py:167-170 | every enqueued entry is one level down, below the bound, unvisited, on the base's host, and the target of a link on the page |
| Crawl.ChildrenComplete | broken_link_checker.py:167-170 | every same-host, unvisited link target is enqueued while the depth is below the bound, even when it is already queued |
| Crawl.Step | broken_link_checker.py:150-170 | one iteration of the crawl loop: at most the head of the queue is newly visited, and only when it was not visited before and lies within the depth bound |
| Crawl.StepShape | broken_link_checker.py:150-170 | an iteration works the queue first in, first out, only ever appends to the links found, and when it visits nothing it only drops the head of the queue |
| Crawl.StepRunning | broken_link_checker.py:150-170 | each iteration either visits a new page of the finite set of base and link targets, or shortens the queue, so the crawl terminates |
| Crawl.RecordLinks | broken_link_checker.py:159-170 | the inner loop appends every link of the page and enqueues exactly `Children` of them |
| Crawl.CrawlWebsite | broken_link_checker.py:144-178 | the crawl returns the links of `Run` from the queue `[(base, 0)]`, filtered to the base's host when external links are excluded |
| CrawlProperties.NoPageExpandedTwice | broken_link_checker.py:150-157 | no page is expanded twice; the visited set is exactly the set of expanded pages |
| CrawlProperties.DepthBound | broken_link_checker.py:150-170 | every expanded page has a depth between 0 and `max_depth`; with a negative bound nothing is expanded and no link is found; otherwise the base is expanded first, at depth 0 |
| CrawlProperties.BreadthFirstOrder | broken_link_checker.py:147-170 | pages are expanded in order of non-decreasing depth |
| CrawlProperties.ExpandedPagesWereLinked | broken_link_checker.py:156-170 | every expanded page other than the base was the target of a same-host link on a page expanded one level up |
| CrawlProperties.SameHostLinksFollowed | broken_link_checker.py:159-170 | every same-host link on a page expanded below the bound leads to an expanded page at most one level down |
| CrawlProperties.AllLinksGathered | broken_link_checker.py:157-165 | before filtering, the result holds every link of every expanded page, page after page in expansion order, duplicates and external links included |
| CrawlProperties.BaseWithoutLinks | broken_link_checker.py:150-170 | when the base page yields no links (it fails to load, answers 400 or more, or holds none), the base is the only page expanded and no link is found |
| CrawlProperties.ReachableIsExpanded | broken_link_checker.py:159-170 | when every same-host link of a page expanded below the bound leads to an expanded page, the end of any same-host chain of at most `max_depth` links from the base is expanded, at a depth no greater than the chain's length |
| CrawlProperties.ExpandedIsReachable | broken_link_checker.py:156-170 | following each expanded page back to the page whose link enqueued it gives a same-host chain from the base exactly as long as its depth |
| CrawlProperties.ExpandedIffReachable | broken_link_checker.py:144-170 | a page is expanded exactly when a chain of at most `max_depth` same-host links leads to it from the base; its depth is the length of the shortest such chain |
| CrawlProperties.KeepSameHostAppend | broken_link_checker.py:172-176 | the scope filter keeps the order of the links: it distributes over concatenation |
| CrawlProperties.SiteOfRecordsFoundOn | broken_link_checker.py:122-138 | every link `extract_links` returns for a page records that page in `found_on` |
| CrawlProperties.GatheredFoundOn | broken_link_checker.py:157-165 | every gathered link was found on one of the expanded pages and is one of that page's links |
| Verify.CheckUrl | broken_link_checker.py:87-105 | the outcome keeps the address; accessible exactly when a response came with a status below 400; an exception gives no status and no final address and carries its message |
| Verify.CheckUrlRoundTrip | broken_link_checker.py:87-105 | every outcome is well formed (a status and final address exactly when there is no error; accessible exactly when there is a status below 400), and the probe it was made from can be recovered from it |
| Verify.CheckUrlOfProbeOf | broken_link_checker.py:87-105 | conversely, every well-formed outcome is the classification of the probe recovered from it |
| Verify.CheckAll | broken_link_checker.py:257-260 | gathering the checks gives one outcome per address, in order, accessible exactly when its probe responded below 400 |
| Verify.CheckSpecificLinks | broken_link_checker.py:252-260 | `check_specific_links` checks every requested address, duplicates included, and each outcome records exactly its own probe |
| Verify.CheckAllAppend | broken_link_checker.py:201-207 | checking a concatenation of address lists gives the concatenation of their outcomes |
| Verify.CheckInBatches | broken_link_checker.py:197-207 | the batches are consecutive, non-empty, at most 10 long, all full but the last, and together exactly the distinct addresses; the results are exactly those of checking all addresses at once |
| Report.UniqueUrls | broken_link_checker.py:195 | the distinct addresses: no repetition, and exactly the targets of the links |
| Report.UrlSetOfUnique | broken_link_checker.py:195-214 | `total_links` is the number of distinct link targets |
| Report.StatusMap | broken_link_checker.py:210 | the status map is keyed by exactly the addresses that have a record, and maps each address to one of its own records |
| Report.StatusMapOfDistinct | broken_link_checker.py:210 | over distinct addresses, every record is the status map's entry for its address |
| Report.StatusMapKeys | broken_link_checker.py:210 | the status map of a check is keyed by exactly the addresses checked |
| Report.StatusMapEntries | broken_link_checker.py:210 | each entry of the status map of a check is the outcome of its own address |
| Report.StatusMapOfChecks | broken_link_checker.py:195-210 | over the distinct addresses, the status map has exactly one entry per address |
| Report.BrokenInStatusMap | broken_link_checker.py:210-213 | the broken records are exactly the status map's inaccessible entries |
| Report.Broken | broken_link_checker.py:213 | `broken_links` holds exactly the inaccessible records, and no more records than were checked |
| Report.BrokenAppend | broken_link_checker.py:213 | the broken list keeps the order of the results: it distributes over concatenation |
| Report.Appearances | broken_link_checker.py:239 | the appearances of an address are exactly the links to it |
| Report.AppearancesAppend | broken_link_checker.py:239 | the appearances keep crawl order: selection distributes over concatenation |
| Report.ListAppearances | broken_link_checker.py:240-245 | the first min(n, 5) `found_on` pages are listed in order; "n − 5 more" appears exactly when n > 5, and the listed and unlisted appearances together count n |
| Report.SuccessRateAsWritten | broken_link_checker.py:222 | the rate as written fails exactly when there are no distinct addresses |
| Report.EmptyScanFails | broken_link_checker.py:192-222 | a scan with a negative depth bound, or whose base page yields no links, finds no address and reaches the failing division |
| Report.SuccessRate | broken_link_checker.py:222 | the corrected rate lies between 0 and 100, is 100 exactly when nothing is broken, and agrees with line 222 whenever there are addresses |
| Report.BrokenDistinct | broken_link_checker.py:213 | over records for distinct addresses, the broken list holds each broken address once |
| Report.Detail | broken_link_checker.py:239-245 | the details of one broken address list only pages holding a link to it, and the listed pages and the count of the rest add up to every link to it |
| Report.Details | broken_link_checker.py:232-245 | one detail per broken record, in order, for that record; the k-th page it lists is where the k-th link to the broken address was found, in crawl order, and the listed pages plus the count of the rest equal the number of links to it |
| Report.AssembleReport | broken_link_checker.py:192-245 | for the links a crawl returned: exactly their distinct addresses are checked, each mapped to its own outcome; the broken list holds exactly the inaccessible ones, each once; the counts agree; the rate lies in 0..100, is 100 exactly when nothing is broken, and equals line 222's value whenever there are addresses; the details list each broken address's appearances |
| Report.ScanWebsiteLinks | broken_link_checker.py:184-250 | everything Report.AssembleReport states, for the links of the crawl; with external links excluded, only same-host addresses are checked |

## Left out

- The MCP server: tool listing, JSON schemas, argument defaults, dispatch, `main` and stdio. They are adapters with no logic of their own. The unknown-tool `ValueError` is not modelled.
- The `aiohttp` session and the real GET and HEAD requests. They are network I/O and become the `Crawl.Web` map and the probe function. The timeout and the user-agent header go with them.
- The probe function returns the same outcome every time an address is probed. In `check_specific_links` a duplicated address is probed twice, and the two real answers could differ.
- BeautifulSoup parsing and `get_text(strip=True)`. The parser is a foreign library; its output is given as elements whose text is already extracted (every text fragment inside the element stripped, the fragments joined with no separator).
- `urljoin` and `urlparse`. They are library URL resolution (section 5.2 of RFC 3986) and stay uninterpreted. The model therefore does not capture an exception raised inside `urljoin`. In the source that exception makes the whole page yield no links through the `except` at line 141. `urlparse` is taken as total: a `ValueError` it raises outside any `try` (lines 161-162 and 174-176, e.g. for a base address such as `http://[::1`) is not modelled.
- Concurrency within a batch (`asyncio.gather`). Each batch is evaluated in order, one outcome per address. `check_url` catches `Exception`, so no gathered result is an exception; a `BaseException` such as cancellation is not modelled.
- The Markdown and emoji report text, including the "Status"/"Error" fallbacks and the redirect line of `check_specific_links`. The model keeps the values those lines print: the status map, counts, rate, broken records and appearance listings.
- The rate uses real numbers. Python's float rounding and the one-decimal formatting are not modelled.
- `url_status` is built but not used by the source's report. The model computes it and states its properties.
- Report.UniqueUrls: keeps first occurrences in crawl order, whereas `list(set(...))` yields an order Python does not specify. Every property stated about the distinct addresses, the status map, the counts and the broken set holds for any order.
- Report.ScanWebsiteLinks: models the corrected program. For a scan that finds no address it reports a rate of 100 (Report.SuccessRate), where line 222 raises `ZeroDivisionError` and the tool returns no report; the as-written behaviour is Report.SuccessRateAsWritten and Report.EmptyScanFails.
- Report.AssembleReport: returns the corrected rate for the same reason.
- Crawl.Children: its own contract bounds its length and the depth only; which entries it enqueues is stated by Crawl.ChildrenSound and Crawl.ChildrenComplete, kept as lemmas so that the loop proofs stay small.
- Crawl.CrawlWebsite: the GET of each page is modelled as one fixed response per page, so a page that would answer differently on a second request is not represented. Each page is fetched at most once anyway (CrawlProperties.NoPageExpandedTwice).

## Findings

| source | as written | input that shows it | evidently intended | confidence | as-written member | corrected member |
|---|---|---|---|---|---|---|
| broken_link_checker.py:222 | the success rate divides by `total_links`, the number of distinct addresses found | a scan that finds no link, e.g. `max_depth = -1`, or a base page that fails to load or holds no link, gives `total_links = 0`; the division raises `ZeroDivisionError` and the tool returns no report | an empty scan is reported like one with nothing broken (rate 100%), as the "No broken links found" branch suggests | not executed; follows from the expression, CrawlProperties.DepthBound and CrawlProperties.BaseWithoutLinks | Report.SuccessRateAsWritten, Report.EmptyScanFails | Report.SuccessRate |
