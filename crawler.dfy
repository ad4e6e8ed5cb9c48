/** The listing crawler: walks the numbered listing pages and collects item identifiers. */
module Crawler {
  import opened Wrappers
  import opened Text
  import opened Web

  const Base: Url := "http://books.toscrape.com/"
  const SecureBase: Url := "https://books.toscrape.com/"

  /** The page bound the synchroniser passes. */
  const DefaultMaxPages: int := 50

  /** Page 1 is the site root's index; page n > 1 is the numbered catalogue page. */
  function PageAddress(page: int): Url {
    Base + (if page > 1 then "catalogue/page-" + Decimal(page) + ".html" else "index.html")
  }

  /** Two strings that differ only in their middles differ when the middles do. */
  lemma MiddlesDiffer(pre: string, x: string, y: string, post: string)
    requires x != y
    ensures pre + x + post != pre + y + post
  {
    if |x| == |y| {
      assert (pre + x + post)[|pre|..|pre| + |x|] == x;
      assert (pre + y + post)[|pre|..|pre| + |y|] == y;
    }
  }

  /** Distinct page numbers name distinct pages, so no page is fetched twice. */
  lemma PageAddressInjective(p: int, q: int)
    requires 1 <= p && 1 <= q && p != q
    ensures PageAddress(p) != PageAddress(q)
  {
    var n := |Base|;
    if p > 1 && q > 1 {
      var pre := Base + "catalogue/page-";
      assert PageAddress(p) == pre + Decimal(p) + ".html";
      assert PageAddress(q) == pre + Decimal(q) + ".html";
      DecimalRoundTrip(p);
      DecimalRoundTrip(q);
      MiddlesDiffer(pre, Decimal(p), Decimal(q), ".html");
    } else if p > 1 {
      assert PageAddress(p)[n] == 'c' && PageAddress(q)[n] == 'i';
    } else {
      assert PageAddress(q)[n] == 'c' && PageAddress(p)[n] == 'i';
    }
  }

  /** Index just past the last '/' of `u`, or 0 when there is none. */
  function DirectoryEnd(u: string): (e: nat)
    ensures e <= |u|
    ensures e > 0 ==> u[e - 1] == '/'
    ensures forall k :: e <= k < |u| ==> u[k] != '/'
  {
    if u == [] then 0
    else if u[|u| - 1] == '/' then |u|
    else DirectoryEnd(u[..|u| - 1])
  }

  predicate IsAbsolute(href: string) {
    StartsAt(href, 0, "http://") || StartsAt(href, 0, "https://")
  }

  /** `urljoin(page_url, href)`: an absolute link is kept, a relative one is resolved
      against the directory of the page's address. */
  function UrlJoin(pageUrl: Url, href: string): Url {
    if IsAbsolute(href) then href else pageUrl[..DirectoryEnd(pageUrl)] + href
  }

  /** The secure-to-plain rewrite applied to every joined link. */
  function Canonical(u: Url): Url {
    ReplaceAll(u, SecureBase, Base)
  }

  function Link(pageUrl: Url, href: string): Url {
    Canonical(UrlJoin(pageUrl, href))
  }

  /** The identifiers of a page's links, in page order. */
  function Links(pageUrl: Url, hrefs: seq<string>): (r: seq<Url>)
    ensures |r| == |hrefs|
  {
    if hrefs == [] then [] else Links(pageUrl, hrefs[..|hrefs| - 1]) + [Link(pageUrl, hrefs[|hrefs| - 1])]
  }

  lemma LinksSnoc(pageUrl: Url, hrefs: seq<string>, j: nat)
    requires j < |hrefs|
    ensures Links(pageUrl, hrefs[..j + 1]) == Links(pageUrl, hrefs[..j]) + [Link(pageUrl, hrefs[j])]
  {
    assert hrefs[..j + 1][..j] == hrefs[..j];
  }

  /** A link written with the secure prefix and the same link with the plain prefix give one identifier. */
  lemma SecureAndPlainAgree(rest: string)
    ensures Canonical(SecureBase + rest) == Base + Canonical(rest)
    ensures Canonical(Base + rest) == Base + Canonical(rest)
  {
    var s := SecureBase + rest;
    assert s[..|SecureBase|] == SecureBase;
    assert s[|SecureBase|..] == rest;
    assert Base[4] == ':' && SecureBase[4] == 's';
    assert forall k :: 1 <= k < |Base| ==> Base[k] != 'h';
    forall k | 0 <= k < |Base| ensures !StartsAt(Base + rest, k, SecureBase) {
      if k == 0 {
        assert (Base + rest)[4] != SecureBase[4];
      } else {
        assert (Base + rest)[k] != SecureBase[0];
      }
    }
    ReplaceAllSkips(Base, rest, SecureBase, Base);
  }

  /** An absolute secure link and its plain twin are stored under the same plain identifier. */
  lemma SecureLinkSameIdentifier(pageUrl: Url, rest: string)
    ensures Link(pageUrl, SecureBase + rest) == Link(pageUrl, Base + rest) == Base + Canonical(rest)
  {
    assert StartsAt(SecureBase + rest, 0, "https://");
    assert StartsAt(Base + rest, 0, "http://");
    SecureAndPlainAgree(rest);
  }

  // ---------------------------------------------------------------------------
  // First-seen-wins deduplication

  predicate NoDuplicates<T(==)>(s: seq<T>) {
    forall i, j :: 0 <= i < j < |s| ==> s[i] != s[j]
  }

  /** `s` with every repeated element dropped, keeping the first occurrence. */
  function Dedup(s: seq<Url>): (r: seq<Url>)
    ensures NoDuplicates(r)
    ensures forall x :: x in r <==> x in s
    decreases |s|
  {
    if s == [] then []
    else
      var d := Dedup(s[..|s| - 1]);
      var x := s[|s| - 1];
      assert forall y :: y in s <==> y in s[..|s| - 1] || y == x by {
        assert s == s[..|s| - 1] + [x];
      }
      if x in d then d else d + [x]
  }

  /** The position of the first occurrence of `x` in `s`. */
  function FirstIndex<T(==)>(s: seq<T>, x: T): (i: nat)
    requires x in s
    ensures i < |s| && s[i] == x
    ensures forall j :: 0 <= j < i ==> s[j] != x
  {
    if s[0] == x then 0 else 1 + FirstIndex(s[1..], x)
  }

  lemma FirstIndexExtend<T>(s: seq<T>, x: T, y: T)
    requires y in s
    ensures y in s + [x] && FirstIndex(s + [x], y) == FirstIndex(s, y)
  {
    var a, b := FirstIndex(s + [x], y), FirstIndex(s, y);
    assert (s + [x])[b] == y;
    assert s[a] == y;
  }

  /** Deduplication keeps the order of first occurrence. */
  lemma {:induction false} DedupFirstSeenOrder(s: seq<Url>)
    ensures forall i, j :: 0 <= i < j < |Dedup(s)| ==> FirstIndex(s, Dedup(s)[i]) < FirstIndex(s, Dedup(s)[j])
    decreases |s|
  {
    if s != [] {
      var s', x := s[..|s| - 1], s[|s| - 1];
      assert s == s' + [x];
      var d' := Dedup(s');
      DedupFirstSeenOrder(s');
      forall y | y in d' ensures FirstIndex(s, y) == FirstIndex(s', y) {
        FirstIndexExtend(s', x, y);
      }
      if x !in d' {
        assert FirstIndex(s, x) == |s'|;
      }
    }
  }

  // ---------------------------------------------------------------------------
  // The crawl

  /** Fetch of listing page `page` and the product-link search on its text; an
      unreachable host or an HTTP error status (400 to 599, `raise_for_status`) fails. */
  function FetchListing(site: Site, pats: Patterns, page: int): Fetched<seq<string>> {
    match site.get(PageAddress(page))
    case Unreachable => Failed
    case Response(status, text) =>
      if 400 <= status < 600 then Failed else Ok(pats.productLinks(text))
  }

  /** Page `page` was fetched and holds at least one product link. */
  predicate FullPage(site: Site, pats: Patterns, page: int) {
    var r := FetchListing(site, pats, page);
    r.Ok? && r.value != []
  }

  /** The identifiers page `page` contributes, in page order, before deduplication. */
  function PageLinks(site: Site, pats: Patterns, page: int): seq<Url> {
    match FetchListing(site, pats, page)
    case Ok(hrefs) => Links(PageAddress(page), hrefs)
    case Failed => []
  }

  /** The identifiers of pages `from` to `to`, concatenated in page order. */
  function Harvest(site: Site, pats: Patterns, from: int, to: int): seq<Url>
    decreases to - from
  {
    if from > to then [] else PageLinks(site, pats, from) + Harvest(site, pats, from + 1, to)
  }

  /** What a crawl produces: the identifiers (or a failure) and the listing pages requested, in
      order, by number (page `n` is fetched from `PageAddress(n)`). */
  datatype Crawl = Crawl(found: Fetched<seq<Url>>, requested: seq<int>)

  /** Puts the identifiers `h` and requests `rq` of earlier pages in front of a crawl's outcome. */
  function Prepend(h: seq<Url>, rq: seq<int>, c: Crawl): Crawl {
    Crawl(if c.found.Ok? then Ok(h + c.found.value) else Failed, rq + c.requested)
  }

  /** The crawl from page `page` on: identifiers before deduplication. */
  function CrawlFrom(site: Site, pats: Patterns, page: int, maxPages: int): Crawl
    requires page >= 1
    decreases if page <= maxPages then maxPages - page + 1 else 0
  {
    if page > maxPages then Crawl(Ok([]), [])
    else
      var addr := PageAddress(page);
      match FetchListing(site, pats, page)
      case Failed => Crawl(Failed, [page])
      case Ok(hrefs) =>
        if hrefs == [] then Crawl(Ok([]), [page])
        else Prepend(Links(addr, hrefs), [page], CrawlFrom(site, pats, page + 1, maxPages))
  }

  /** `scrape_books(max_pages)`: the whole crawl, deduplicated first-seen-wins. */
  function Scrape(site: Site, pats: Patterns, maxPages: int): Crawl {
    var c := CrawlFrom(site, pats, 1, maxPages);
    Crawl(if c.found.Ok? then Ok(Dedup(c.found.value)) else Failed, c.requested)
  }

  lemma {:induction false} CrawlFromRequests(site: Site, pats: Patterns, page: int, maxPages: int)
    requires page >= 1
    ensures var c := CrawlFrom(site, pats, page, maxPages);
            && |c.requested| <= (if page <= maxPages then maxPages - page + 1 else 0)
            && forall i :: 0 <= i < |c.requested| ==> c.requested[i] == page + i
    decreases if page <= maxPages then maxPages - page + 1 else 0
  {
    if page <= maxPages && FullPage(site, pats, page) {
      CrawlFromRequests(site, pats, page + 1, maxPages);
    }
  }

  /** The crawl requests pages 1, 2, 3, ... in order and never more than `maxPages` of them. */
  lemma ScrapeRequestsConsecutivePages(site: Site, pats: Patterns, maxPages: int)
    ensures var c := Scrape(site, pats, maxPages);
            && |c.requested| <= (if maxPages > 0 then maxPages else 0)
            && forall i :: 0 <= i < |c.requested| ==> c.requested[i] == i + 1
  {
    CrawlFromRequests(site, pats, 1, maxPages);
  }

  /** No listing address is fetched twice in one crawl. */
  lemma ScrapeFetchesEachPageOnce(site: Site, pats: Patterns, maxPages: int)
    ensures var rq := Scrape(site, pats, maxPages).requested;
            forall i, j :: 0 <= i < j < |rq| ==> PageAddress(rq[i]) != PageAddress(rq[j])
  {
    var rq := Scrape(site, pats, maxPages).requested;
    ScrapeRequestsConsecutivePages(site, pats, maxPages);
    forall i, j | 0 <= i < j < |rq| ensures PageAddress(rq[i]) != PageAddress(rq[j]) {
      PageAddressInjective(rq[i], rq[j]);
    }
  }

  lemma {:induction false} CrawlFromStopsAtEmpty(site: Site, pats: Patterns, page: int, k: int, maxPages: int)
    requires 1 <= page <= k + 1 <= maxPages
    requires forall p :: page <= p <= k ==> FullPage(site, pats, p)
    requires FetchListing(site, pats, k + 1) == Ok([])
    ensures CrawlFrom(site, pats, page, maxPages).found == Ok(Harvest(site, pats, page, k))
    ensures |CrawlFrom(site, pats, page, maxPages).requested| == k + 2 - page
    decreases k + 1 - page
  {
    if page <= k {
      assert FullPage(site, pats, page);
      CrawlFromStopsAtEmpty(site, pats, page + 1, k, maxPages);
    }
  }

  /** Pages 1..k non-empty and page k+1 empty: exactly k+1 fetches, and the identifiers of pages 1..k. */
  lemma ScrapeStopsAfterFirstEmptyPage(site: Site, pats: Patterns, maxPages: int, k: int)
    requires 0 <= k < maxPages
    requires forall p :: 1 <= p <= k ==> FullPage(site, pats, p)
    requires FetchListing(site, pats, k + 1) == Ok([])
    ensures Scrape(site, pats, maxPages).found == Ok(Dedup(Harvest(site, pats, 1, k)))
    ensures |Scrape(site, pats, maxPages).requested| == k + 1
  {
    CrawlFromStopsAtEmpty(site, pats, 1, k, maxPages);
  }

  lemma {:induction false} CrawlFromAllFull(site: Site, pats: Patterns, page: int, maxPages: int)
    requires 1 <= page <= maxPages + 1
    requires forall p :: page <= p <= maxPages ==> FullPage(site, pats, p)
    ensures CrawlFrom(site, pats, page, maxPages).found == Ok(Harvest(site, pats, page, maxPages))
    ensures |CrawlFrom(site, pats, page, maxPages).requested| == maxPages + 1 - page
    decreases maxPages + 1 - page
  {
    if page <= maxPages {
      assert FullPage(site, pats, page);
      CrawlFromAllFull(site, pats, page + 1, maxPages);
    }
  }

  /** A site that never runs out of links is still read for at most `maxPages` pages. */
  lemma ScrapeStopsAtMaxPages(site: Site, pats: Patterns, maxPages: int)
    requires maxPages >= 0
    requires forall p :: 1 <= p <= maxPages ==> FullPage(site, pats, p)
    ensures Scrape(site, pats, maxPages).found == Ok(Dedup(Harvest(site, pats, 1, maxPages)))
    ensures |Scrape(site, pats, maxPages).requested| == maxPages
  {
    CrawlFromAllFull(site, pats, 1, maxPages);
  }

  lemma {:induction false} CrawlFromAbortsAt(site: Site, pats: Patterns, page: int, k: int, maxPages: int)
    requires 1 <= page <= k <= maxPages
    requires forall p :: page <= p < k ==> FullPage(site, pats, p)
    requires FetchListing(site, pats, k).Failed?
    ensures CrawlFrom(site, pats, page, maxPages).found == Failed
    ensures |CrawlFrom(site, pats, page, maxPages).requested| == k + 1 - page
    decreases k - page
  {
    if page < k {
      assert FullPage(site, pats, page);
      CrawlFromAbortsAt(site, pats, page + 1, k, maxPages);
    }
  }

  /** A listing page that fails to fetch fails the whole crawl: no partial listing is returned. */
  lemma ScrapeFailsOnListingFailure(site: Site, pats: Patterns, maxPages: int, k: int)
    requires 1 <= k <= maxPages
    requires forall p :: 1 <= p < k ==> FullPage(site, pats, p)
    requires FetchListing(site, pats, k).Failed?
    ensures Scrape(site, pats, maxPages).found == Failed
    ensures |Scrape(site, pats, maxPages).requested| == k
  {
    CrawlFromAbortsAt(site, pats, 1, k, maxPages);
  }

  /** The returned identifiers are exactly the distinct links seen, each once, in first-seen order. */
  lemma ScrapeFirstSeen(site: Site, pats: Patterns, maxPages: int)
    ensures var c, s := CrawlFrom(site, pats, 1, maxPages), Scrape(site, pats, maxPages);
            s.found.Ok? ==>
              && NoDuplicates(s.found.value)
              && (forall x :: x in s.found.value <==> x in c.found.value)
              && forall i, j :: 0 <= i < j < |s.found.value| ==>
                   FirstIndex(c.found.value, s.found.value[i]) < FirstIndex(c.found.value, s.found.value[j])
  {
    var c := CrawlFrom(site, pats, 1, maxPages);
    if c.found.Ok? {
      DedupFirstSeenOrder(c.found.value);
    }
  }

  lemma DedupSnoc(s: seq<Url>, x: Url)
    ensures Dedup(s + [x]) == if x in Dedup(s) then Dedup(s) else Dedup(s) + [x]
  {
    assert (s + [x])[..|s|] == s;
  }

  lemma PrependPrepend(h: seq<Url>, rq: seq<int>, l: seq<Url>, a: seq<int>, c: Crawl)
    ensures Prepend(h, rq, Prepend(l, a, c)) == Prepend(h + l, rq + a, c)
  {
    assert c.found.Ok? ==> h + (l + c.found.value) == (h + l) + c.found.value;
    assert rq + (a + c.requested) == (rq + a) + c.requested;
  }

  /** A full page moves its identifiers and its address from the crawl still to come to the
      part already done. */
  lemma CrawlStep(h: seq<Url>, rq: seq<int>, site: Site, pats: Patterns, page: int, maxPages: int, hrefs: seq<string>)
    requires 1 <= page <= maxPages
    requires FetchListing(site, pats, page) == Ok(hrefs) && hrefs != []
    ensures Prepend(h, rq, CrawlFrom(site, pats, page, maxPages))
         == Prepend(h + Links(PageAddress(page), hrefs), rq + [page], CrawlFrom(site, pats, page + 1, maxPages))
  {
    var addr := PageAddress(page);
    var rest := CrawlFrom(site, pats, page + 1, maxPages);
    assert CrawlFrom(site, pats, page, maxPages) == Prepend(Links(addr, hrefs), [page], rest);
    PrependPrepend(h, rq, Links(addr, hrefs), [page], rest);
  }

  /** The inner loop of `scrape_books` over one page's links: each link is made absolute and
      canonical, and appended unless it is already in the list. */
  method AppendNewLinks(links0: seq<Url>, ghost seen: seq<Url>, pageUrl: Url, hrefs: seq<string>) returns (links: seq<Url>)
    requires links0 == Dedup(seen)
    ensures links == Dedup(seen + Links(pageUrl, hrefs))
  {
    links := links0;
    var j := 0;
    assert seen + Links(pageUrl, hrefs[..0]) == seen;
    while j < |hrefs|
      invariant 0 <= j <= |hrefs|
      invariant links == Dedup(seen + Links(pageUrl, hrefs[..j]))
    {
      var full := Link(pageUrl, hrefs[j]);
      ghost var before := seen + Links(pageUrl, hrefs[..j]);
      LinksSnoc(pageUrl, hrefs, j);
      assert seen + Links(pageUrl, hrefs[..j + 1]) == before + [full];
      DedupSnoc(before, full);
      if full !in links {
        links := links + [full];
      }
      j := j + 1;
    }
    assert hrefs[..|hrefs|] == hrefs;
  }

  /** `scrape_books`: the page loop with its early exit, growing the identifier list in place. */
  method ScrapeBooks(site: Site, pats: Patterns, maxPages: int) returns (found: Fetched<seq<Url>>, requested: seq<int>)
    ensures Crawl(found, requested) == Scrape(site, pats, maxPages)
    ensures found.Ok? ==> NoDuplicates(found.value)
  {
    var links: seq<Url> := [];
    ghost var harvest: seq<Url> := [];
    requested := [];
    var page := 1;
    ghost var whole := CrawlFrom(site, pats, 1, maxPages);
    assert whole.found.Ok? ==> [] + whole.found.value == whole.found.value;
    assert [] + whole.requested == whole.requested;
    while page <= maxPages
      invariant page >= 1
      invariant links == Dedup(harvest)
      invariant whole == Prepend(harvest, requested, CrawlFrom(site, pats, page, maxPages))
      decreases maxPages - page
    {
      var addr := PageAddress(page);
      var listing := FetchListing(site, pats, page);
      if listing.Failed? {
        requested := requested + [page];
        return Failed, requested;
      }
      var hrefs := listing.value;
      if hrefs == [] {
        assert harvest + [] == harvest;
        requested := requested + [page];
        break;
      }
      links := AppendNewLinks(links, harvest, addr, hrefs);
      CrawlStep(harvest, requested, site, pats, page, maxPages, hrefs);
      harvest := harvest + Links(addr, hrefs);
      requested := requested + [page];
      page := page + 1;
    }
    assert harvest + [] == harvest && requested + [] == requested;
    found := Ok(links);
  }
}
