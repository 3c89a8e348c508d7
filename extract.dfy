/**
 * The part of `LinkChecker.extract_links` that runs after the page has been
 * fetched and parsed: it turns the parsed elements into the list of links
 * found on the page, hyperlinks (`a`, `link` with `href`) first and embedded
 * resources (`img`, `script` with `src`) after, each resolved against the
 * crawl's base address.
 */
module Extract {
  import opened Wrappers
  import opened Model

  /** Hyperlink text is cut to this many characters. */
  const MaxTextLength: nat := 100

  /** A status at or above this value makes the page yield no links. */
  const ErrorStatus: int := 400

  predicate IsHrefTag(name: string) { name == "a" || name == "link" }

  predicate IsSrcTag(name: string) { name == "img" || name == "script" }

  /** The elements `find_all(['a', 'link'], href=True)` selects. */
  predicate HasHref(e: Element) { IsHrefTag(e.name) && e.href.Some? }

  /** The elements `find_all(['img', 'script'], src=True)` selects. */
  predicate HasSrc(e: Element) { IsSrcTag(e.name) && e.src.Some? }

  /** The first `n` characters of `s` (Python's `s[:n]`). */
  function Truncate(s: string, n: nat): (r: string)
    ensures r <= s
    ensures |r| == if |s| <= n then |s| else n
  {
    if |s| <= n then s else s[..n]
  }

  /** The `alt` attribute, or the empty string when it is missing. */
  function AltText(e: Element): string
  {
    match e.alt
    case Some(a) => a
    case None => ""
  }

  /** The link recorded for a selected hyperlink element. */
  function HrefLink(e: Element, page: Url, base: Url, join: (Url, Url) -> Url): Link
    requires HasHref(e)
  {
    Link(join(base, e.href.value), Truncate(e.text, MaxTextLength), e.name, page)
  }

  /** The link recorded for a selected resource element. */
  function SrcLink(e: Element, page: Url, base: Url, join: (Url, Url) -> Url): Link
    requires HasSrc(e)
  {
    Link(join(base, e.src.value), AltText(e), e.name, page)
  }

  /** The hyperlinks of `es`, in document order. */
  function HrefLinks(es: seq<Element>, page: Url, base: Url, join: (Url, Url) -> Url): (r: seq<Link>)
    ensures |r| <= |es|
    ensures forall l :: l in r ==> l.foundOn == page && IsHrefTag(l.tag) && |l.text| <= MaxTextLength
  {
    if es == [] then []
    else
      var last := es[|es| - 1];
      var prefix := HrefLinks(es[..|es| - 1], page, base, join);
      prefix + (if HasHref(last) then [HrefLink(last, page, base, join)] else [])
  }

  /** The resource references of `es`, in document order. */
  function SrcLinks(es: seq<Element>, page: Url, base: Url, join: (Url, Url) -> Url): (r: seq<Link>)
    ensures |r| <= |es|
    ensures forall l :: l in r ==> l.foundOn == page && IsSrcTag(l.tag)
  {
    if es == [] then []
    else
      var last := es[|es| - 1];
      var prefix := SrcLinks(es[..|es| - 1], page, base, join);
      prefix + (if HasSrc(last) then [SrcLink(last, page, base, join)] else [])
  }

  /** What `extract_links(page, base)` returns for the response `resp`. */
  function PageLinks(resp: PageResponse, page: Url, base: Url, join: (Url, Url) -> Url): (r: seq<Link>)
    ensures resp.Page? ==> |r| <= 2 * |resp.elements|
    ensures forall l :: l in r ==> l.foundOn == page && (IsHrefTag(l.tag) || IsSrcTag(l.tag))
  {
    match resp
    case Failed(_) => []
    case Page(status, es) =>
      if status >= ErrorStatus then [] else HrefLinks(es, page, base, join) + SrcLinks(es, page, base, join)
  }

  /**
   * Builds the link list of one fetched page with the two appending loops
   * of the source.
   */
  method ExtractLinks(resp: PageResponse, page: Url, base: Url, join: (Url, Url) -> Url)
    returns (links: seq<Link>)
    ensures links == PageLinks(resp, page, base, join)
  {
    if resp.Failed? || resp.status >= ErrorStatus {
      return [];
    }
    var es := resp.elements;
    links := [];
    var i := 0;
    while i < |es|
      invariant 0 <= i <= |es|
      invariant links == HrefLinks(es[..i], page, base, join)
    {
      assert es[..i + 1][..i] == es[..i];
      var e := es[i];
      if HasHref(e) {
        links := links + [Link(join(base, e.href.value), Truncate(e.text, MaxTextLength), e.name, page)];
      }
      i := i + 1;
    }
    assert es[..i] == es;
    ghost var hrefs := links;
    i := 0;
    while i < |es|
      invariant 0 <= i <= |es|
      invariant links == hrefs + SrcLinks(es[..i], page, base, join)
    {
      assert es[..i + 1][..i] == es[..i];
      var e := es[i];
      if HasSrc(e) {
        links := links + [Link(join(base, e.src.value), AltText(e), e.name, page)];
      }
      i := i + 1;
    }
    assert es[..i] == es;
  }

  /**
   * Hyperlink extraction keeps document order: the links of a document
   * split in two are the links of the first part followed by those of the
   * second.
   */
  lemma {:induction false} HrefLinksAppend(a: seq<Element>, b: seq<Element>, page: Url, base: Url, join: (Url, Url) -> Url)
    ensures HrefLinks(a + b, page, base, join) == HrefLinks(a, page, base, join) + HrefLinks(b, page, base, join)
    decreases |b|
  {
    if b == [] {
      assert a + b == a;
    } else {
      var b' := b[..|b| - 1];
      assert (a + b)[..|a + b| - 1] == a + b';
      HrefLinksAppend(a, b', page, base, join);
    }
  }

  /** The same order preservation for resource references. */
  lemma {:induction false} SrcLinksAppend(a: seq<Element>, b: seq<Element>, page: Url, base: Url, join: (Url, Url) -> Url)
    ensures SrcLinks(a + b, page, base, join) == SrcLinks(a, page, base, join) + SrcLinks(b, page, base, join)
    decreases |b|
  {
    if b == [] {
      assert a + b == a;
    } else {
      var b' := b[..|b| - 1];
      assert (a + b)[..|a + b| - 1] == a + b';
      SrcLinksAppend(a, b', page, base, join);
    }
  }

  /**
   * Every selected element yields a link: the hyperlink of each `a`/`link`
   * element with an `href` is among the page's hyperlinks.
   */
  lemma {:induction false} HrefLinksComplete(es: seq<Element>, k: nat, page: Url, base: Url, join: (Url, Url) -> Url)
    requires k < |es| && HasHref(es[k])
    ensures HrefLink(es[k], page, base, join) in HrefLinks(es, page, base, join)
    decreases |es|
  {
    if k < |es| - 1 {
      HrefLinksComplete(es[..|es| - 1], k, page, base, join);
    }
  }

  /** Every `img`/`script` element with a `src` yields a resource link. */
  lemma {:induction false} SrcLinksComplete(es: seq<Element>, k: nat, page: Url, base: Url, join: (Url, Url) -> Url)
    requires k < |es| && HasSrc(es[k])
    ensures SrcLink(es[k], page, base, join) in SrcLinks(es, page, base, join)
    decreases |es|
  {
    if k < |es| - 1 {
      SrcLinksComplete(es[..|es| - 1], k, page, base, join);
    }
  }

  /** Every hyperlink comes from a selected element of the page. */
  lemma {:induction false} HrefLinksSound(es: seq<Element>, page: Url, base: Url, join: (Url, Url) -> Url)
    ensures forall l :: l in HrefLinks(es, page, base, join) ==>
      exists e :: e in es && HasHref(e) && l == HrefLink(e, page, base, join)
  {
    if es != [] {
      HrefLinksSound(es[..|es| - 1], page, base, join);
      assert forall e :: e in es[..|es| - 1] ==> e in es;
    }
  }

  /** Every resource reference comes from a selected element of the page. */
  lemma {:induction false} SrcLinksSound(es: seq<Element>, page: Url, base: Url, join: (Url, Url) -> Url)
    ensures forall l :: l in SrcLinks(es, page, base, join) ==>
      exists e :: e in es && HasSrc(e) && l == SrcLink(e, page, base, join)
  {
    if es != [] {
      SrcLinksSound(es[..|es| - 1], page, base, join);
      assert forall e :: e in es[..|es| - 1] ==> e in es;
    }
  }

  /** No hyperlink comes after a resource reference. */
  ghost predicate HrefsFirst(links: seq<Link>)
  {
    forall i, j :: 0 <= i < j < |links| && IsHrefTag(links[j].tag) ==> IsHrefTag(links[i].tag)
  }

  /**
   * The shape of a page's link list: nothing for an error status or a
   * failed fetch; otherwise every hyperlink comes before every resource
   * reference, every link records the page it was found on, and its target
   * is resolved against the base address, not against the page.
   */
  lemma PageLinksShape(resp: PageResponse, page: Url, base: Url, join: (Url, Url) -> Url)
    ensures resp.Failed? || resp.status >= ErrorStatus ==> PageLinks(resp, page, base, join) == []
    ensures forall l :: l in PageLinks(resp, page, base, join) ==> l.foundOn == page
    ensures HrefsFirst(PageLinks(resp, page, base, join))
    ensures forall l :: l in PageLinks(resp, page, base, join) ==>
      exists e :: e in resp.elements &&
        ((HasHref(e) && l.url == join(base, e.href.value) && l.text == Truncate(e.text, MaxTextLength)) ||
         (HasSrc(e) && l.url == join(base, e.src.value) && l.text == AltText(e)))
  {
    if resp.Page? && resp.status < ErrorStatus {
      var hs := HrefLinks(resp.elements, page, base, join);
      var ss := SrcLinks(resp.elements, page, base, join);
      var r := hs + ss;
      HrefLinksSound(resp.elements, page, base, join);
      SrcLinksSound(resp.elements, page, base, join);
      forall i, j | 0 <= i < j < |r| && IsHrefTag(r[j].tag)
        ensures IsHrefTag(r[i].tag)
      {
        assert r[i] in hs;
      }
    }
  }
}
