/**
 * What the crawl guarantees, as lemmas about `Crawl.Final`: no page is
 * expanded twice, depths stay within the bound, pages are expanded in
 * breadth-first order, every expanded page was reached over a same-host
 * link, and every same-host page within the bound is expanded at its
 * distance from the base.
 *
 * Each lemma rests on an invariant of `Crawl.Run`, kept in groups so that
 * each step lemma sees only the facts it needs.
 */
module CrawlProperties {
  import opened Model
  import opened Crawl

  /** Depths never decrease along the expansion order. */
  ghost predicate Ascending(expanded: seq<Url>, level: map<Url, int>)
  {
    && (forall i :: 0 <= i < |expanded| ==> expanded[i] in level)
    && (forall i, j :: 0 <= i < j < |expanded| ==> level[expanded[i]] <= level[expanded[j]])
  }

  /** Every expanded page other than the base was found, on its parent one level up, as a same-host link. */
  ghost predicate ParentsSound(c: Crawler, level: map<Url, int>, parent: map<Url, Url>)
  {
    forall u :: u in level && u != c.base ==>
      && u in parent && parent[u] in level
      && level[u] == level[parent[u]] + 1
      && SameHost(c.netloc, c.base, u)
      && LinksTo(c, parent[u], u)
  }

  /** Every same-host link of a page expanded below the bound leads to a page expanded at most one level further down. */
  ghost predicate ChildrenExpanded(c: Crawler, level: map<Url, int>)
  {
    forall u :: u in level && level[u] < c.maxDepth ==>
      forall i :: 0 <= i < |LinksOf(c, u)| && SameHost(c.netloc, c.base, LinksOf(c, u)[i].url) ==>
        LinksOf(c, u)[i].url in level && level[LinksOf(c, u)[i].url] <= level[u] + 1
  }

  // ----- The invariant of the crawl loop, in groups -----

  /** `visited` is the set of expanded pages, each expanded once and given a depth. */
  ghost predicate KeysInv(st: CrawlState)
  {
    && st.visited == st.level.Keys
    && Distinct(st.expanded)
    && (forall i :: 0 <= i < |st.expanded| ==> st.expanded[i] in st.level)
    && (forall u :: u in st.level ==> u in st.expanded)
  }

  /**
   * The queue holds `k` entries at depth `cur` followed by entries at
   * `cur + 1`, none negative and none beyond the bound except the initial
   * base entry.
   */
  ghost predicate QueueShape(c: Crawler, queue: seq<Entry>, cur: int, k: int)
  {
    && 0 <= k <= |queue|
    && forall i :: 0 <= i < |queue| ==>
         && queue[i].depth == (if i < k then cur else cur + 1)
         && 0 <= queue[i].depth
         && (queue[i].depth <= c.maxDepth || queue[i] == Entry(c.base, 0))
  }

  /** Expanded pages lie at depths between 0 and both `cur` and the bound. */
  ghost predicate LevelsBelow(level: map<Url, int>, cur: int, maxDepth: int)
  {
    forall u :: u in level ==> 0 <= level[u] <= cur && level[u] <= maxDepth
  }

  /** The queue is sorted by depth with a spread of at most one, and at or below every expanded depth. */
  ghost predicate DepthInv(c: Crawler, st: CrawlState)
  {
    exists cur, k :: QueueShape(c, st.queue, cur, k) && LevelsBelow(st.level, cur, c.maxDepth)
  }

  /** Before the first expansion only the base waits; after it, the base is first, at depth 0. */
  ghost predicate StartInv(c: Crawler, st: CrawlState)
  {
    && (st.expanded == [] ==> st.queue == [Entry(c.base, 0)] || (st.queue == [] && c.maxDepth < 0))
    && (st.expanded != [] ==> st.expanded[0] == c.base && c.base in st.level && st.level[c.base] == 0)
  }

  /** Queue entry `e` is the initial one, or a same-host link on the expanded page `from`, one level down. */
  ghost predicate EntryFrom(c: Crawler, level: map<Url, int>, e: Entry, from: Url)
  {
    e == Entry(c.base, 0) ||
    (from in level && level[from] + 1 == e.depth && SameHost(c.netloc, c.base, e.url) && LinksTo(c, from, e.url))
  }

  ghost predicate Provenance(c: Crawler, level: map<Url, int>, queue: seq<Entry>, from: seq<Url>)
  {
    && |from| == |queue|
    && forall i :: 0 <= i < |queue| ==> EntryFrom(c, level, queue[i], from[i])
  }

  ghost predicate ProvInv(c: Crawler, st: CrawlState)
  {
    Provenance(c, st.level, st.queue, st.from) && ParentsSound(c, st.level, st.parent)
  }

  /** The target `v` of a same-host link is expanded at depth at most `d`, or waits in the queue at depth `d`. */
  ghost predicate Covered(level: map<Url, int>, queue: seq<Entry>, v: Url, d: int)
  {
    (v in level && level[v] <= d) || Entry(v, d) in queue
  }

  /** The same-host links of the expanded page `u` are covered one level below it. */
  ghost predicate ChildrenCovered(c: Crawler, level: map<Url, int>, queue: seq<Entry>, u: Url)
    requires u in level
  {
    forall i :: 0 <= i < |LinksOf(c, u)| && SameHost(c.netloc, c.base, LinksOf(c, u)[i].url) ==>
      Covered(level, queue, LinksOf(c, u)[i].url, level[u] + 1)
  }

  /** The covering obligations of every page expanded below the bound, except those in `skip`. */
  ghost predicate AllChildrenCovered(c: Crawler, level: map<Url, int>, queue: seq<Entry>, skip: set<Url>)
  {
    forall u :: u in level && u !in skip && level[u] < c.maxDepth ==> ChildrenCovered(c, level, queue, u)
  }

  ghost predicate Inv(c: Crawler, st: CrawlState)
  {
    && Running(c, st)
    && KeysInv(st)
    && DepthInv(c, st)
    && Ascending(st.expanded, st.level)
    && StartInv(c, st)
    && ProvInv(c, st)
    && AllChildrenCovered(c, st.level, st.queue, {})
    && st.allLinks == Gathered(c, st.expanded)
  }

  // ----- Each group is kept by a step -----

  /** The head entry is expanded by the step. */
  predicate Expands(c: Crawler, st: CrawlState)
    requires st.queue != []
  {
    !(st.queue[0].url in st.visited || st.queue[0].depth > c.maxDepth)
  }

  lemma KeysStep(c: Crawler, st: CrawlState)
    requires Running(c, st) && st.queue != [] && KeysInv(st)
    ensures KeysInv(Step(c, st))
  {
    if Expands(c, st) {
      var u := st.queue[0].url;
      var e' := st.expanded + [u];
      assert u !in st.expanded;
      assert forall i :: 0 <= i < |st.expanded| ==> e'[i] == st.expanded[i];
    }
  }

  /** Expanding the head entry leaves the queue in shape, the head's depth becoming the current one. */
  lemma ShapeAfterExpand(c: Crawler, queue: seq<Entry>, cur: int, k: int, children: seq<Entry>)
    requires QueueShape(c, queue, cur, k) && queue != []
    requires forall e :: e in children ==> e.depth == queue[0].depth + 1 && queue[0].depth < c.maxDepth
    ensures QueueShape(c, queue[1..] + children, queue[0].depth, if k > 0 then k - 1 else |queue| - 1)
  {
    var q := queue[1..] + children;
    assert forall i :: 0 <= i < |q| ==> if i < |queue| - 1 then q[i] == queue[i + 1] else q[i] in children;
  }

  lemma DepthStep(c: Crawler, st: CrawlState)
    requires Running(c, st) && st.queue != [] && DepthInv(c, st)
    ensures DepthInv(c, Step(c, st))
  {
    var cur, k :| QueueShape(c, st.queue, cur, k) && LevelsBelow(st.level, cur, c.maxDepth);
    var e := st.queue[0];
    if Expands(c, st) {
      var links := LinksOf(c, e.url);
      var children := Children(links, e.depth, st.visited + {e.url}, c.maxDepth, c.netloc, c.base);
      ChildrenSound(links, e.depth, st.visited + {e.url}, c.maxDepth, c.netloc, c.base);
      ShapeAfterExpand(c, st.queue, cur, k, children);
      assert LevelsBelow(st.level[e.url := e.depth], e.depth, c.maxDepth);
    } else {
      assert QueueShape(c, st.queue[1..], cur, if k > 0 then k - 1 else 0);
    }
  }

  lemma OrderStep(c: Crawler, st: CrawlState)
    requires Running(c, st) && st.queue != [] && KeysInv(st) && DepthInv(c, st)
    requires Ascending(st.expanded, st.level)
    ensures Ascending(Step(c, st).expanded, Step(c, st).level)
  {
    if Expands(c, st) {
      var cur, k :| QueueShape(c, st.queue, cur, k) && LevelsBelow(st.level, cur, c.maxDepth);
      var e := st.queue[0];
      var e' := st.expanded + [e.url];
      var level' := st.level[e.url := e.depth];
      assert forall i :: 0 <= i < |st.expanded| ==> e'[i] == st.expanded[i] && level'[e'[i]] == st.level[st.expanded[i]];
    }
  }

  lemma StartStep(c: Crawler, st: CrawlState)
    requires Running(c, st) && st.queue != [] && KeysInv(st) && StartInv(c, st)
    ensures StartInv(c, Step(c, st))
  {
    if st.expanded == [] {
      assert st.level == map[];
    }
  }

  /** Expanding entry `current`, found on `from`, extends the parent map soundly. */
  lemma ParentsAfterExpand(c: Crawler, level: map<Url, int>, parent: map<Url, Url>, current: Entry, from: Url)
    requires ParentsSound(c, level, parent)
    requires current.url !in level
    requires EntryFrom(c, level, current, from)
    ensures ParentsSound(c, level[current.url := current.depth],
                         if current.url != c.base then parent[current.url := from] else parent)
  {
  }

  /** Expanding or skipping the head entry keeps the provenance of the rest, and children come from the page. */
  lemma ProvenanceStep(c: Crawler, st: CrawlState)
    requires Running(c, st) && st.queue != [] && KeysInv(st) && Provenance(c, st.level, st.queue, st.from)
    ensures Provenance(c, Step(c, st).level, Step(c, st).queue, Step(c, st).from)
  {
    var e := st.queue[0];
    if Expands(c, st) {
      var level' := st.level[e.url := e.depth];
      var links := LinksOf(c, e.url);
      var children := Children(links, e.depth, st.visited + {e.url}, c.maxDepth, c.netloc, c.base);
      ChildrenSound(links, e.depth, st.visited + {e.url}, c.maxDepth, c.netloc, c.base);
      var from' := st.from[1..] + seq(|children|, _ => e.url);
      var q' := st.queue[1..] + children;
      forall i | 0 <= i < |q'|
        ensures EntryFrom(c, level', q'[i], from'[i])
      {
        if i < |st.queue| - 1 {
          assert q'[i] == st.queue[i + 1] && from'[i] == st.from[i + 1];
          assert EntryFrom(c, st.level, st.queue[i + 1], st.from[i + 1]);
        } else {
          assert q'[i] in children && from'[i] == e.url;
        }
      }
    } else {
      assert forall i :: 0 <= i < |st.queue| - 1 ==> st.queue[1..][i] == st.queue[i + 1] && st.from[1..][i] == st.from[i + 1];
    }
  }

  lemma ParentsStep(c: Crawler, st: CrawlState)
    requires Running(c, st) && st.queue != [] && KeysInv(st) && ProvInv(c, st)
    ensures ParentsSound(c, Step(c, st).level, Step(c, st).parent)
  {
    if Expands(c, st) {
      assert EntryFrom(c, st.level, st.queue[0], st.from[0]);
      ParentsAfterExpand(c, st.level, st.parent, st.queue[0], st.from[0]);
    }
  }

  /** Dropping a head entry that needs no expansion keeps every obligation covered. */
  lemma CoveredAfterSkip(c: Crawler, level: map<Url, int>, e: Entry, rest: seq<Entry>)
    requires AllChildrenCovered(c, level, [e] + rest, {})
    requires (e.url in level && level[e.url] <= e.depth) || e.depth > c.maxDepth
    requires forall u :: u in level ==> level[u] <= c.maxDepth
    ensures AllChildrenCovered(c, level, rest, {})
  {
    forall u, i | u in level && level[u] < c.maxDepth && 0 <= i < |LinksOf(c, u)| &&
                  SameHost(c.netloc, c.base, LinksOf(c, u)[i].url)
      ensures Covered(level, rest, LinksOf(c, u)[i].url, level[u] + 1)
    {
      var v := LinksOf(c, u)[i].url;
      assert ChildrenCovered(c, level, [e] + rest, u);
      assert Covered(level, [e] + rest, v, level[u] + 1);
      if Entry(v, level[u] + 1) in [e] + rest && Entry(v, level[u] + 1) != e {
        assert Entry(v, level[u] + 1) in rest;
      }
    }
  }

  /** Expanding the head entry keeps every other page's obligations covered by the rest of the queue. */
  lemma CoveredAfterExpand(c: Crawler, level: map<Url, int>, e: Entry, rest: seq<Entry>)
    requires AllChildrenCovered(c, level, [e] + rest, {})
    requires e.url !in level
    ensures AllChildrenCovered(c, level[e.url := e.depth], rest, {e.url})
  {
    var level' := level[e.url := e.depth];
    forall u, i | u in level' && u != e.url && level'[u] < c.maxDepth && 0 <= i < |LinksOf(c, u)| &&
                  SameHost(c.netloc, c.base, LinksOf(c, u)[i].url)
      ensures Covered(level', rest, LinksOf(c, u)[i].url, level'[u] + 1)
    {
      var v := LinksOf(c, u)[i].url;
      assert ChildrenCovered(c, level, [e] + rest, u);
      assert Covered(level, [e] + rest, v, level[u] + 1);
      if Entry(v, level[u] + 1) in [e] + rest && Entry(v, level[u] + 1) != e {
        assert Entry(v, level[u] + 1) in rest;
      }
    }
  }

  /** Appending to the queue keeps every obligation covered. */
  lemma CoveredGrow(c: Crawler, level: map<Url, int>, q: seq<Entry>, q': seq<Entry>, skip: set<Url>)
    requires AllChildrenCovered(c, level, q, skip)
    requires q <= q'
    ensures AllChildrenCovered(c, level, q', skip)
  {
    forall u, i | u in level && u !in skip && level[u] < c.maxDepth && 0 <= i < |LinksOf(c, u)| &&
                  SameHost(c.netloc, c.base, LinksOf(c, u)[i].url)
      ensures Covered(level, q', LinksOf(c, u)[i].url, level[u] + 1)
    {
      assert ChildrenCovered(c, level, q, u);
      assert Covered(level, q, LinksOf(c, u)[i].url, level[u] + 1);
    }
  }

  /** After expanding `current`, its own same-host links are covered. */
  lemma OwnChildrenCovered(c: Crawler, level': map<Url, int>, current: Entry, rest: seq<Entry>, children: seq<Entry>)
    requires current.url in level' && level'[current.url] == current.depth
    requires forall u :: u in level' ==> level'[u] <= current.depth
    requires AllChildrenCovered(c, level', rest + children, {current.url})
    requires children == Children(LinksOf(c, current.url), current.depth, level'.Keys, c.maxDepth, c.netloc, c.base)
    ensures AllChildrenCovered(c, level', rest + children, {})
  {
    var q := rest + children;
    if current.depth < c.maxDepth {
      var pl := LinksOf(c, current.url);
      ChildrenComplete(pl, current.depth, level'.Keys, c.maxDepth, c.netloc, c.base);
      forall i | 0 <= i < |pl| && SameHost(c.netloc, c.base, pl[i].url)
        ensures Covered(level', q, pl[i].url, current.depth + 1)
      {
        if pl[i].url !in level' {
          assert Entry(pl[i].url, current.depth + 1) in children;
          assert Entry(pl[i].url, current.depth + 1) in q;
        }
      }
      assert ChildrenCovered(c, level', q, current.url);
    }
  }

  lemma CoverStep(c: Crawler, st: CrawlState)
    requires Running(c, st) && st.queue != [] && KeysInv(st) && DepthInv(c, st)
    requires AllChildrenCovered(c, st.level, st.queue, {})
    ensures AllChildrenCovered(c, Step(c, st).level, Step(c, st).queue, {})
  {
    var cur, k :| QueueShape(c, st.queue, cur, k) && LevelsBelow(st.level, cur, c.maxDepth);
    var e := st.queue[0];
    assert st.queue == [e] + st.queue[1..];
    if Expands(c, st) {
      var level' := st.level[e.url := e.depth];
      var children := Children(LinksOf(c, e.url), e.depth, st.visited + {e.url}, c.maxDepth, c.netloc, c.base);
      CoveredAfterExpand(c, st.level, e, st.queue[1..]);
      CoveredGrow(c, level', st.queue[1..], st.queue[1..] + children, {e.url});
      assert level'.Keys == st.visited + {e.url};
      OwnChildrenCovered(c, level', e, st.queue[1..], children);
    } else {
      CoveredAfterSkip(c, st.level, e, st.queue[1..]);
    }
  }

  lemma LinksStep(c: Crawler, st: CrawlState)
    requires Running(c, st) && st.queue != [] && st.allLinks == Gathered(c, st.expanded)
    ensures Step(c, st).allLinks == Gathered(c, Step(c, st).expanded)
  {
    if Expands(c, st) {
      assert (st.expanded + [st.queue[0].url])[..|st.expanded|] == st.expanded;
    }
  }

  lemma InvStep(c: Crawler, st: CrawlState)
    requires Inv(c, st) && st.queue != []
    ensures Inv(c, Step(c, st))
  {
    StepRunning(c, st);
    KeysStep(c, st);
    DepthStep(c, st);
    OrderStep(c, st);
    StartStep(c, st);
    ProvenanceStep(c, st);
    ParentsStep(c, st);
    CoverStep(c, st);
    LinksStep(c, st);
  }

  lemma InitialInv(c: Crawler)
    ensures Inv(c, Initial(c.base))
  {
    InitialRunning(c);
    assert QueueShape(c, [Entry(c.base, 0)], 0, 1) && LevelsBelow(map[], 0, c.maxDepth);
  }

  /** The invariant holds when the loop ends, and the loop ends with an empty queue. */
  lemma {:induction false} InvRun(c: Crawler, st: CrawlState)
    requires Inv(c, st)
    ensures Inv(c, Run(c, st)) && Run(c, st).queue == []
    decreases |Universe(c) - st.visited|, |st.queue|
  {
    if st.queue != [] {
      InvStep(c, st);
      StepRunning(c, st);
      InvRun(c, Step(c, st));
    }
  }

  lemma FinalInv(c: Crawler)
    ensures Inv(c, Final(c)) && Final(c).queue == []
  {
    InitialInv(c);
    InvRun(c, Initial(c.base));
  }

  // ----- The properties of the crawl -----

  /** No page is expanded twice; the visited set, the recorded depths and the expansion order name the same pages. */
  lemma NoPageExpandedTwice(c: Crawler)
    ensures Distinct(Final(c).expanded)
    ensures Final(c).visited == Final(c).level.Keys
    ensures forall u :: u in Final(c).level <==> u in Final(c).expanded
  {
    FinalInv(c);
  }

  /**
   * Nothing is expanded, and no link found, when the bound is negative;
   * otherwise the base is expanded first, at depth 0, and every page at a
   * depth between 0 and the bound.
   */
  lemma DepthBound(c: Crawler)
    ensures c.maxDepth < 0 ==> Final(c).expanded == [] && Final(c).allLinks == []
    ensures c.maxDepth >= 0 ==> && Final(c).expanded != [] && Final(c).expanded[0] == c.base
                                && c.base in Final(c).level && Final(c).level[c.base] == 0
    ensures forall u :: u in Final(c).level ==> 0 <= Final(c).level[u] <= c.maxDepth
  {
    FinalInv(c);
    var f := Final(c);
    var cur, k :| QueueShape(c, f.queue, cur, k) && LevelsBelow(f.level, cur, c.maxDepth);
  }

  /** Pages are expanded in order of non-decreasing depth: breadth first. */
  lemma BreadthFirstOrder(c: Crawler)
    ensures Ascending(Final(c).expanded, Final(c).level)
  {
    FinalInv(c);
  }

  /** Every expanded page but the base was linked, on the same host, from a page expanded one level up. */
  lemma ExpandedPagesWereLinked(c: Crawler)
    ensures ParentsSound(c, Final(c).level, Final(c).parent)
  {
    FinalInv(c);
  }

  /** Every same-host link on a page expanded below the bound leads to an expanded page, at most one level down. */
  lemma {:induction false} SameHostLinksFollowed(c: Crawler)
    ensures ChildrenExpanded(c, Final(c).level)
  {
    FinalInv(c);
    var level := Final(c).level;
    forall u, i | u in level && level[u] < c.maxDepth && 0 <= i < |LinksOf(c, u)| &&
                  SameHost(c.netloc, c.base, LinksOf(c, u)[i].url)
      ensures LinksOf(c, u)[i].url in level && level[LinksOf(c, u)[i].url] <= level[u] + 1
    {
      assert ChildrenCovered(c, level, [], u);
      assert Covered(level, [], LinksOf(c, u)[i].url, level[u] + 1);
    }
  }

  /** The links returned before filtering are those of the expanded pages, page after page in expansion order. */
  lemma AllLinksGathered(c: Crawler)
    ensures Final(c).allLinks == Gathered(c, Final(c).expanded)
  {
    FinalInv(c);
  }

  /** When the base page yields no links, the base is the only page that gets a depth. */
  lemma {:induction false} OnlyBase(c: Crawler, level: map<Url, int>, parent: map<Url, Url>, u: Url)
    requires ParentsSound(c, level, parent) && LinksOf(c, c.base) == []
    requires forall v :: v in level ==> 0 <= level[v]
    requires u in level
    ensures u == c.base
    decreases level[u]
  {
    if u != c.base {
      OnlyBase(c, level, parent, parent[u]);
      assert false;
    }
  }

  /** Pages that yield no links contribute none. */
  lemma {:induction false} GatheredNone(c: Crawler, pages: seq<Url>)
    requires forall u :: u in pages ==> LinksOf(c, u) == []
    ensures Gathered(c, pages) == []
  {
    if pages != [] {
      assert forall u :: u in pages[..|pages| - 1] ==> u in pages;
      GatheredNone(c, pages[..|pages| - 1]);
    }
  }

  /**
   * A base page that yields no links (it fails to load, answers with an
   * error status, or holds none) is the only page expanded, and the crawl
   * finds no link at all.
   */
  lemma BaseWithoutLinks(c: Crawler)
    requires LinksOf(c, c.base) == []
    ensures forall u :: u in Final(c).expanded ==> u == c.base
    ensures Final(c).allLinks == []
  {
    var f := Final(c);
    DepthBound(c);
    NoPageExpandedTwice(c);
    ExpandedPagesWereLinked(c);
    AllLinksGathered(c);
    forall u | u in f.expanded
      ensures u == c.base
    {
      OnlyBase(c, f.level, f.parent, u);
    }
    GatheredNone(c, f.expanded);
  }

  // ----- Reachability -----

  /** `p` is a chain of same-host links from the base: each page on it links to the next. */
  ghost predicate IsPath(c: Crawler, p: seq<Url>)
  {
    && |p| >= 1 && p[0] == c.base
    && forall i :: 1 <= i < |p| ==> SameHost(c.netloc, c.base, p[i]) && LinksTo(c, p[i - 1], p[i])
  }

  lemma PathPrefix(c: Crawler, p: seq<Url>)
    requires IsPath(c, p) && |p| > 1
    ensures IsPath(c, p[..|p| - 1])
  {
    var q := p[..|p| - 1];
    assert forall i :: 0 <= i < |q| ==> q[i] == p[i];
  }

  lemma PathExtend(c: Crawler, p: seq<Url>, u: Url)
    requires IsPath(c, p) && SameHost(c.netloc, c.base, u) && LinksTo(c, p[|p| - 1], u)
    ensures IsPath(c, p + [u])
  {
    var p' := p + [u];
    assert forall i :: 0 <= i < |p| ==> p'[i] == p[i];
  }

  /** Under closure over same-host links, the end of a path of at most `maxDepth` links has a depth no greater than the path's length. */
  lemma {:induction false} ReachableIsExpanded(c: Crawler, level: map<Url, int>, p: seq<Url>)
    requires ChildrenExpanded(c, level) && c.base in level && level[c.base] == 0
    requires IsPath(c, p) && |p| - 1 <= c.maxDepth
    ensures p[|p| - 1] in level && level[p[|p| - 1]] <= |p| - 1
  {
    if |p| > 1 {
      var q := p[..|p| - 1];
      PathPrefix(c, p);
      ReachableIsExpanded(c, level, q);
      var j := |p| - 2;
      var u, v := p[j], p[j + 1];
      assert u == q[|q| - 1];
      assert LinksTo(c, u, v) && SameHost(c.netloc, c.base, v);
      var i :| 0 <= i < |LinksOf(c, u)| && LinksOf(c, u)[i].url == v;
    }
  }

  /** The chain of parents from the base down to `u`. */
  ghost function PathTo(c: Crawler, level: map<Url, int>, parent: map<Url, Url>, u: Url): (p: seq<Url>)
    requires ParentsSound(c, level, parent) && c.base in level && level[c.base] == 0
    requires forall v :: v in level ==> 0 <= level[v]
    requires u in level
    ensures |p| == level[u] + 1 && p[|p| - 1] == u
    decreases level[u]
  {
    if u == c.base then [c.base] else PathTo(c, level, parent, parent[u]) + [u]
  }

  /** Following sound parents back to the base gives, for every page with a depth, a path exactly that long. */
  lemma {:induction false} ExpandedIsReachable(c: Crawler, level: map<Url, int>, parent: map<Url, Url>, u: Url)
    requires ParentsSound(c, level, parent) && c.base in level && level[c.base] == 0
    requires forall v :: v in level ==> 0 <= level[v]
    requires u in level
    ensures IsPath(c, PathTo(c, level, parent, u))
    decreases level[u]
  {
    if u != c.base {
      var w := parent[u];
      ExpandedIsReachable(c, level, parent, w);
      PathExtend(c, PathTo(c, level, parent, w), u);
    }
  }

  /**
   * The crawl expands exactly the pages that end a path of at most
   * `maxDepth` same-host links from the base, and each at its distance:
   * some path to it is exactly as long as its depth and none is shorter.
   */
  lemma ExpandedIffReachable(c: Crawler, u: Url)
    ensures u in Final(c).level <==> exists p :: IsPath(c, p) && p[|p| - 1] == u && |p| - 1 <= c.maxDepth
    ensures u in Final(c).level ==> exists p :: IsPath(c, p) && p[|p| - 1] == u && |p| == Final(c).level[u] + 1
    ensures u in Final(c).level ==> forall p :: IsPath(c, p) && p[|p| - 1] == u ==> Final(c).level[u] <= |p| - 1
  {
    var f := Final(c);
    DepthBound(c);
    NoPageExpandedTwice(c);
    if c.maxDepth >= 0 {
      ExpandedPagesWereLinked(c);
      SameHostLinksFollowed(c);
      if u in f.level {
        ExpandedIsReachable(c, f.level, f.parent, u);
        var p := PathTo(c, f.level, f.parent, u);
        assert IsPath(c, p) && p[|p| - 1] == u && |p| == f.level[u] + 1;
      }
      forall p | IsPath(c, p) && p[|p| - 1] == u && |p| - 1 <= c.maxDepth
        ensures u in f.level && f.level[u] <= |p| - 1
      {
        ReachableIsExpanded(c, f.level, p);
      }
    }
  }

  /** The scope filter keeps the order of the links: it distributes over concatenation. */
  lemma {:induction false} KeepSameHostAppend(a: seq<Link>, b: seq<Link>, netloc: Url -> string, base: Url)
    ensures KeepSameHost(a + b, netloc, base) == KeepSameHost(a, netloc, base) + KeepSameHost(b, netloc, base)
  {
    if b != [] {
      var front := b[..|b| - 1];
      assert (a + b)[..|a + b| - 1] == a + front;
      KeepSameHostAppend(a, front, netloc, base);
    } else {
      assert a + b == a;
    }
  }

  /** Every link of a page records that page as where it was found. */
  ghost predicate FoundOnRecorded(site: Site)
  {
    forall u :: u in site ==> forall l :: l in site[u] ==> l.foundOn == u
  }

  /** The site a web presents records, for every link, the page it was found on. */
  lemma SiteOfRecordsFoundOn(web: Web, base: Url, join: (Url, Url) -> Url)
    ensures FoundOnRecorded(SiteOf(web, base, join))
  {
    forall u | u in web
      ensures forall l :: l in SiteOf(web, base, join)[u] ==> l.foundOn == u
    {
      Extract.PageLinksShape(web[u], u, base, join);
    }
  }

  /** Every gathered link was found on one of the pages, and is one of that page's links. */
  lemma {:induction false} GatheredFoundOn(c: Crawler, pages: seq<Url>)
    requires FoundOnRecorded(c.site)
    ensures forall l :: l in Gathered(c, pages) ==> l.foundOn in pages && l in LinksOf(c, l.foundOn)
  {
    if pages != [] {
      var front, last := pages[..|pages| - 1], pages[|pages| - 1];
      GatheredFoundOn(c, front);
      assert forall u :: u in front ==> u in pages;
    }
  }
}
