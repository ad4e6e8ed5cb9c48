/** The synchroniser: one pass of `update_database` over the store of tracked items. */
module Synchroniser {
  import opened Wrappers
  import opened Web
  import opened Crawler
  import opened Extractor

  /** A tracked item, one row of `books`; prices in pence, the check time as a timestamp. */
  datatype Book = Book(
    url: Url,
    title: string,
    genre: Option<string>,
    availability: Option<string>,
    rating: Option<string>,
    lastPrice: nat,
    prevPrice: Option<nat>,
    priceChange: Option<int>,
    lastChecked: int)

  /** One row of `price_history`, naming its item by identifier. */
  datatype PriceObservation = PriceObservation(url: Url, price: nat, timestamp: int)

  /** The persistent state: the items keyed by identifier and the append-only price history. */
  datatype Store = Store(books: map<Url, Book>, history: seq<PriceObservation>)

  /** Every item sits under its own identifier and every history row refers to a tracked item. */
  predicate StoreValid(st: Store) {
    && (forall u :: u in st.books ==> st.books[u].url == u)
    && (forall k :: 0 <= k < |st.history| ==> st.history[k].url in st.books)
  }

  /** `round(last - (prev or last), 2)` in pence: a previous price of zero is falsy, so the
      change is then zero whatever the new price. */
  function Delta(prev: nat, price: nat): int {
    if prev == 0 then 0 else price - prev
  }

  /** `urls[:limit]` when a limit is given: a prefix, with Python's reading of a negative bound. */
  function Truncate(urls: seq<Url>, limit: Option<int>): (r: seq<Url>)
    ensures r <= urls
    ensures NoDuplicates(urls) ==> NoDuplicates(r)
    ensures limit.None? ==> r == urls
    ensures limit.Some? && 0 <= limit.value ==> |r| == if limit.value < |urls| then limit.value else |urls|
    ensures limit.Some? && limit.value < 0 ==> |r| == if |urls| + limit.value > 0 then |urls| + limit.value else 0
  {
    match limit
    case None => urls
    case Some(n) =>
      var end := if 0 <= n then (if n < |urls| then n else |urls|)
                 else (if |urls| + n > 0 then |urls| + n else 0);
      urls[..end]
  }

  function Lookup(books: map<Url, Book>, u: Url): Option<Book> {
    if u in books then Some(books[u]) else None
  }

  /** The row for a priced detail: an existing row moves its price to `prevPrice` and takes the
      new price, the change and the detail's fields; otherwise a fresh row without history. */
  function Refresh(existing: Option<Book>, d: BookDetail, price: nat, now: int): Book {
    match existing
    case Some(b) =>
      b.(prevPrice := Some(b.lastPrice), lastPrice := price, priceChange := Some(Delta(b.lastPrice, price)),
         title := d.title, genre := d.genre, availability := d.availability, rating := d.rating,
         lastChecked := now)
    case None =>
      Book(d.url, d.title, d.genre, d.availability, d.rating, price, None, None, now)
  }

  /** One iteration of the loop: a detail without a price is skipped, any other upserts its row
      and appends one history row. */
  function Record(st: Store, u: Url, d: BookDetail, now: int): Store {
    match d.price
    case None => st
    case Some(p) =>
      Store(st.books[u := Refresh(Lookup(st.books, u), d, p, now)],
            st.history + [PriceObservation(u, p, now)])
  }

  /** How the loop reads one item: `parse_book_detail(url)`, a record or a transport failure. */
  type DetailSource = Url -> Fetched<BookDetail>

  /** The item pages of the site read through the extractor. */
  function Fetcher(site: Site, pats: Patterns): DetailSource {
    u => FetchDetail(site, pats, u)
  }

  /** A source whose records name the identifier they were read for, as `parse_book_detail` does. */
  ghost predicate KeepsUrl(fetch: DetailSource) {
    forall u :: fetch(u).Ok? ==> fetch(u).value.url == u
  }

  /** The loop over the identifiers, in order; the first failed read aborts it. */
  function SyncAll(fetch: DetailSource, st: Store, urls: seq<Url>, now: int): Fetched<Store>
    decreases |urls|
  {
    if urls == [] then Ok(st)
    else
      match SyncAll(fetch, st, urls[..|urls| - 1], now)
      case Failed => Failed
      case Ok(mid) =>
        var u := urls[|urls| - 1];
        match fetch(u)
        case Failed => Failed
        case Ok(d) => Ok(Record(mid, u, d, now))
  }

  /** `update_database(limit)`: crawl up to the default number of listing pages, truncate, sync;
      a failure anywhere leaves nothing committed. */
  function Pass(site: Site, pats: Patterns, st: Store, limit: Option<int>, now: int): Fetched<Store> {
    match Scrape(site, pats, DefaultMaxPages).found
    case Failed => Failed
    case Ok(urls) => SyncAll(Fetcher(site, pats), st, Truncate(urls, limit), now)
  }

  // ---------------------------------------------------------------------------
  // What a pass does to the store

  /** The price read for `u`, if the read succeeds and the page shows one. */
  function Priced(fetch: DetailSource, u: Url): Option<nat> {
    match fetch(u)
    case Failed => None
    case Ok(d) => d.price
  }

  /** The history rows a pass over `urls` appends: one per priced item, in order. */
  function Observations(fetch: DetailSource, urls: seq<Url>, now: int): seq<PriceObservation>
    decreases |urls|
  {
    if urls == [] then []
    else
      var u := urls[|urls| - 1];
      Observations(fetch, urls[..|urls| - 1], now)
        + match Priced(fetch, u) case Some(p) => [PriceObservation(u, p, now)] case None => []
  }

  /** Every read of an item in `urls` succeeds. */
  predicate AllRead(fetch: DetailSource, urls: seq<Url>) {
    forall k :: 0 <= k < |urls| ==> fetch(urls[k]).Ok?
  }

  lemma AllReadSnoc(fetch: DetailSource, urls: seq<Url>)
    requires urls != []
    ensures AllRead(fetch, urls) <==> AllRead(fetch, urls[..|urls| - 1]) && fetch(urls[|urls| - 1]).Ok?
  {
    var init := urls[..|urls| - 1];
    assert forall k :: 0 <= k < |init| ==> init[k] == urls[k];
  }

  /** The loop over `urls[..i + 1]` is the loop over `urls[..i]` followed by one iteration. */
  lemma SyncAllStep(fetch: DetailSource, st: Store, urls: seq<Url>, now: int, i: nat)
    requires i < |urls|
    ensures SyncAll(fetch, st, urls[..i + 1], now)
         == match SyncAll(fetch, st, urls[..i], now)
            case Failed => Failed
            case Ok(mid) =>
              match fetch(urls[i])
              case Failed => Failed
              case Ok(d) => Ok(Record(mid, urls[i], d, now))
  {
    assert urls[..i + 1][..i] == urls[..i];
  }

  /** The loop completes exactly when every read succeeds. */
  lemma {:induction false} SyncAllOkIff(fetch: DetailSource, st: Store, urls: seq<Url>, now: int)
    ensures SyncAll(fetch, st, urls, now).Ok? <==> AllRead(fetch, urls)
    decreases |urls|
  {
    if urls != [] {
      SyncAllOkIff(fetch, st, urls[..|urls| - 1], now);
      AllReadSnoc(fetch, urls);
    }
  }

  /** The history only grows, by one row per priced item, stamped with the pass's time. */
  lemma {:induction false} SyncAllHistory(fetch: DetailSource, st: Store, urls: seq<Url>, now: int)
    requires SyncAll(fetch, st, urls, now).Ok?
    ensures SyncAll(fetch, st, urls, now).value.history == st.history + Observations(fetch, urls, now)
    decreases |urls|
  {
    if urls == [] {
      assert st.history + [] == st.history;
    } else {
      var init := urls[..|urls| - 1];
      SyncAllHistory(fetch, st, init, now);
      var u := urls[|urls| - 1];
      var mid := SyncAll(fetch, st, init, now).value;
      var tail := match Priced(fetch, u) case Some(p) => [PriceObservation(u, p, now)] case None => [];
      assert Record(mid, u, fetch(u).value, now).history == mid.history + tail;
      assert st.history + Observations(fetch, init, now) + tail
          == st.history + (Observations(fetch, init, now) + tail);
    }
  }

  /** An item that is not among the priced items of the pass keeps its row, or stays absent. */
  lemma {:induction false} SyncAllLeavesOthers(fetch: DetailSource, st: Store, urls: seq<Url>, now: int, u: Url)
    requires SyncAll(fetch, st, urls, now).Ok?
    requires u !in urls || Priced(fetch, u).None?
    ensures Lookup(SyncAll(fetch, st, urls, now).value.books, u) == Lookup(st.books, u)
    decreases |urls|
  {
    if urls != [] {
      var init := urls[..|urls| - 1];
      assert u in init ==> u in urls;
      SyncAllLeavesOthers(fetch, st, init, now, u);
    }
  }

  /** The tracked identifiers grow by exactly the priced items of the pass. */
  lemma {:induction false} SyncAllKeys(fetch: DetailSource, st: Store, urls: seq<Url>, now: int)
    requires SyncAll(fetch, st, urls, now).Ok?
    ensures forall u :: u in SyncAll(fetch, st, urls, now).value.books
                        <==> u in st.books || (u in urls && Priced(fetch, u).Some?)
    decreases |urls|
  {
    if urls != [] {
      var init := urls[..|urls| - 1];
      SyncAllKeys(fetch, st, init, now);
      assert forall u :: u in urls <==> u in init || u == urls[|urls| - 1];
    }
  }

  /** A priced item visited once ends the pass with its new price, the previous one, the change
      between them (zero when the previous price was zero), the detail's fields and the pass's
      time; a new item has no previous price and no change. */
  lemma {:induction false} SyncAllRefreshes(fetch: DetailSource, st: Store, urls: seq<Url>, now: int, u: Url, p: nat)
    requires NoDuplicates(urls)
    requires SyncAll(fetch, st, urls, now).Ok?
    requires u in urls && Priced(fetch, u) == Some(p)
    ensures var books := SyncAll(fetch, st, urls, now).value.books;
            var d := fetch(u).value;
            && u in books
            && books[u].lastPrice == p
            && books[u].lastChecked == now
            && books[u].title == d.title && books[u].genre == d.genre
            && books[u].availability == d.availability && books[u].rating == d.rating
            && (u in st.books ==>
                  && books[u].url == st.books[u].url
                  && books[u].prevPrice == Some(st.books[u].lastPrice)
                  && books[u].priceChange == Some(if st.books[u].lastPrice == 0 then 0 else p - st.books[u].lastPrice))
            && (u !in st.books ==> books[u].url == d.url && books[u].prevPrice.None? && books[u].priceChange.None?)
  {
    SyncAllUpsertsOnce(fetch, st, urls, now, u, p);
    var b := SyncAll(fetch, st, urls, now).value.books[u];
    var d := fetch(u).value;
    if u in st.books {
      assert b == Refresh(Some(st.books[u]), d, p, now);
    } else {
      assert b == Refresh(None, d, p, now);
    }
  }

  /** With distinct identifiers, a priced item's row after the pass is its row before it refreshed once. */
  lemma {:induction false} SyncAllUpsertsOnce(fetch: DetailSource, st: Store, urls: seq<Url>, now: int, u: Url, p: nat)
    requires NoDuplicates(urls)
    requires SyncAll(fetch, st, urls, now).Ok?
    requires u in urls && Priced(fetch, u) == Some(p)
    ensures fetch(u).Ok?
    ensures Lookup(SyncAll(fetch, st, urls, now).value.books, u)
         == Some(Refresh(Lookup(st.books, u), fetch(u).value, p, now))
    decreases |urls|
  {
    var init := urls[..|urls| - 1];
    var last := urls[|urls| - 1];
    assert forall i, j :: 0 <= i < j < |init| ==> init[i] == urls[i] && init[j] == urls[j];
    if last == u {
      assert u !in init by {
        forall k | 0 <= k < |init| ensures init[k] != u {
          assert init[k] == urls[k];
        }
      }
      SyncAllLeavesOthers(fetch, st, init, now, u);
    } else {
      assert u in init by {
        var k :| 0 <= k < |urls| && urls[k] == u;
        assert k < |init| && init[k] == u;
      }
      SyncAllUpsertsOnce(fetch, st, init, now, u, p);
    }
  }

  /** A pass keeps the store well formed: rows under their own identifiers, history rows pointing
      at tracked items. */
  lemma {:induction false} SyncAllKeepsValid(fetch: DetailSource, st: Store, urls: seq<Url>, now: int)
    requires KeepsUrl(fetch)
    requires StoreValid(st)
    requires SyncAll(fetch, st, urls, now).Ok?
    ensures StoreValid(SyncAll(fetch, st, urls, now).value)
    decreases |urls|
  {
    if urls != [] {
      var init := urls[..|urls| - 1];
      SyncAllKeepsValid(fetch, st, init, now);
    }
  }

  /** Reading the item pages of the site: every record carries the address it was read from. */
  lemma FetcherKeepsUrl(site: Site, pats: Patterns)
    ensures KeepsUrl(Fetcher(site, pats))
  {
  }

  /** A committed pass keeps the store well formed. */
  lemma PassKeepsValid(site: Site, pats: Patterns, st: Store, limit: Option<int>, now: int)
    requires StoreValid(st)
    requires Pass(site, pats, st, limit, now).Ok?
    ensures StoreValid(Pass(site, pats, st, limit, now).value)
  {
    FetcherKeepsUrl(site, pats);
    SyncAllKeepsValid(Fetcher(site, pats), st, Truncate(Scrape(site, pats, DefaultMaxPages).found.value, limit), now);
  }

  /** Every item page in `urls` answers. */
  predicate AllReachable(site: Site, urls: seq<Url>) {
    forall k :: 0 <= k < |urls| ==> site.get(urls[k]).Response?
  }

  /** A pass commits exactly when the crawl succeeds and every item page it then visits is reachable. */
  lemma PassCommitsIff(site: Site, pats: Patterns, st: Store, limit: Option<int>, now: int)
    ensures Pass(site, pats, st, limit, now).Ok? <==>
              && Scrape(site, pats, DefaultMaxPages).found.Ok?
              && AllReachable(site, Truncate(Scrape(site, pats, DefaultMaxPages).found.value, limit))
  {
    var found := Scrape(site, pats, DefaultMaxPages).found;
    if found.Ok? {
      var urls := Truncate(found.value, limit);
      SyncAllOkIff(Fetcher(site, pats), st, urls, now);
      assert forall k :: 0 <= k < |urls| ==> Fetcher(site, pats)(urls[k]) == FetchDetail(site, pats, urls[k]);
    }
  }

  /** Two passes over an unchanged site: each priced item ends with its price as both the current
      and the previous one and a change of zero, and the history holds both passes' rows. */
  lemma RecrawlIsStable(site: Site, pats: Patterns, st: Store, limit: Option<int>, now1: int, now2: int)
    requires Pass(site, pats, st, limit, now1).Ok?
    requires Pass(site, pats, Pass(site, pats, st, limit, now1).value, limit, now2).Ok?
    ensures var urls := Truncate(Scrape(site, pats, DefaultMaxPages).found.value, limit);
            var st2 := Pass(site, pats, Pass(site, pats, st, limit, now1).value, limit, now2).value;
            && st2.history == st.history + Observations(Fetcher(site, pats), urls, now1) + Observations(Fetcher(site, pats), urls, now2)
            && forall u, p :: u in urls && Priced(Fetcher(site, pats), u) == Some(p) ==>
                 && u in st2.books
                 && st2.books[u].lastPrice == p
                 && st2.books[u].prevPrice == Some(p)
                 && st2.books[u].priceChange == Some(0)
  {
    var urls := Truncate(Scrape(site, pats, DefaultMaxPages).found.value, limit);
    var st1 := Pass(site, pats, st, limit, now1).value;
    var st2 := Pass(site, pats, st1, limit, now2).value;
    var fetch := Fetcher(site, pats);
    SyncAllHistory(fetch, st, urls, now1);
    SyncAllHistory(fetch, st1, urls, now2);
    forall u, p | u in urls && Priced(fetch, u) == Some(p)
      ensures && u in st2.books && st2.books[u].lastPrice == p
              && st2.books[u].prevPrice == Some(p) && st2.books[u].priceChange == Some(0)
    {
      SyncAllRefreshes(fetch, st, urls, now1, u, p);
      SyncAllRefreshes(fetch, st1, urls, now2, u, p);
    }
  }

  /** The body of the loop on the session's copy of the tables: a priced detail updates the row
      under `u` in place or adds one, and appends a history row. */
  method Upsert(books: map<Url, Book>, history: seq<PriceObservation>, u: Url, d: BookDetail, now: int)
    returns (books': map<Url, Book>, history': seq<PriceObservation>)
    ensures Store(books', history') == Record(Store(books, history), u, d, now)
  {
    books', history' := books, history;
    if d.price.Some? {
      var p := d.price.value;
      if u in books' {
        var b := books'[u];
        books' := books'[u := b.(prevPrice := Some(b.lastPrice), lastPrice := p,
                                 priceChange := Some(Delta(b.lastPrice, p)),
                                 title := d.title, genre := d.genre, availability := d.availability,
                                 rating := d.rating, lastChecked := now)];
      } else {
        books' := books'[u := Book(d.url, d.title, d.genre, d.availability, d.rating, p, None, None, now)];
      }
      history' := history' + [PriceObservation(u, p, now)];
    }
  }

  // ---------------------------------------------------------------------------
  // The database the pass writes to

  /** The `books` and `price_history` tables. */
  /** One item page of a pass: a failed read fails the whole pass, a successful one records it. */
  lemma FetchStep(site: Site, pats: Patterns, st: Store, urls: seq<Url>, now: int, i: nat, mid: Store)
    requires i < |urls|
    requires SyncAll(Fetcher(site, pats), st, urls[..i], now) == Ok(mid)
    ensures FetchDetail(site, pats, urls[i]).Failed? ==> SyncAll(Fetcher(site, pats), st, urls, now).Failed?
    ensures FetchDetail(site, pats, urls[i]).Ok?
            ==> SyncAll(Fetcher(site, pats), st, urls[..i + 1], now)
                == Ok(Record(mid, urls[i], FetchDetail(site, pats, urls[i]).value, now))
  {
    var fetch := Fetcher(site, pats);
    assert fetch(urls[i]) == FetchDetail(site, pats, urls[i]);
    SyncAllStep(fetch, st, urls, now, i);
    SyncAllOkIff(fetch, st, urls, now);
  }

  /** The loop of `update_database`: every item page in turn, upserted into a working copy of the
      tables; the first page that cannot be read abandons the copy. */
  method SyncPages(site: Site, pats: Patterns, st: Store, urls: seq<Url>, now: int) returns (r: Fetched<Store>)
    ensures r == SyncAll(Fetcher(site, pats), st, urls, now)
  {
    var bks := st.books;
    var hist := st.history;
    var i := 0;
    while i < |urls|
      invariant 0 <= i <= |urls|
      invariant SyncAll(Fetcher(site, pats), st, urls[..i], now) == Ok(Store(bks, hist))
    {
      var u := urls[i];
      var data := FetchDetail(site, pats, u);
      FetchStep(site, pats, st, urls, now, i, Store(bks, hist));
      if data.Failed? {
        return Failed;
      }
      bks, hist := Upsert(bks, hist, u, data.value, now);
      i := i + 1;
    }
    assert urls[..|urls|] == urls;
    r := Ok(Store(bks, hist));
  }

  class Catalog {
    var books: map<Url, Book>
    var history: seq<PriceObservation>

    function State(): Store
      reads this
    {
      Store(books, history)
    }

    /** A fresh database: both tables empty. */
    constructor ()
      ensures books == map[] && history == []
    {
      books := map[];
      history := [];
    }

    /** `update_database(limit)`: the loop works on a session and commits once, at the end; an
        exception on the way (a failed crawl, an unreachable item page) leaves the tables as they were. */
    method UpdateDatabase(site: Site, pats: Patterns, limit: Option<int>, now: int) returns (committed: bool)
      modifies this
      ensures committed <==> Pass(site, pats, old(State()), limit, now).Ok?
      ensures committed ==> State() == Pass(site, pats, old(State()), limit, now).value
      ensures !committed ==> books == old(books) && history == old(history)
    {
      var found, _ := ScrapeBooks(site, pats, DefaultMaxPages);
      if found.Failed? {
        return false;
      }
      var synced := SyncPages(site, pats, Store(books, history), Truncate(found.value, limit), now);
      if synced.Failed? {
        return false;
      }
      books, history := synced.value.books, synced.value.history;
      committed := true;
    }
  }
}
