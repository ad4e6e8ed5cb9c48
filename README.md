# Book tracker core: crawl, extraction, price synchronisation and hangman

This project models the core of `discord_bot.py`, a Discord bot that tracks book prices on the
demonstration shop `books.toscrape.com`. It proves properties of that model.

The core has four parts:

- **The crawler** (`scrape_books`) walks listing pages 1, 2, 3, … up to a page bound. It stops
  at the first page without product links. It resolves each product link against the page address,
  rewrites the shop's own `https://books.toscrape.com/` prefix to `http://books.toscrape.com/`
  (links to other hosts keep their scheme), and collects the identifiers without repeats, in first-seen order.
  A failed listing fetch aborts the crawl.
- **The extractor** (`parse_book_detail`) reads one item page:
  - The title comes from the first `<h1>…</h1>`. Failing that, it comes from the
    `<title> … | Books to Scrape` page title. Failing both, it is `"Unknown"`.
  - The price is the first `£ digits.digits` token.
  - Genre, availability and rating come from three further regular expressions.
- **The synchroniser** (`update_database`) runs one crawl with the page bound 50 and applies
  the optional `limit` as a Python slice. It reads every item page in order:
  - An item page without a price is skipped.
  - A priced one is upserted into `books`, and one `price_history` row is appended for it.
    On an existing row, the old price moves to `prev_price` and the change is computed as the
    source writes it (`last - (prev or last)`), so a previous price of zero gives a change of
    zero.
  - The session commits only at the end. Any failed fetch aborts the whole pass with nothing
    committed.
- **Hangman** (`!hangman` and `!guess`):
  - `!hangman` builds a secret from a title: upper case, with every non-letter turned into a
    space. The display hides each letter.
  - `!guess` checks that the guess is one letter not tried before. A letter of the secret is
    revealed in place at no cost. Any other letter costs one of six tries.
  - A game ends when no hidden letter is left or no try is left.

Modules:

- `Wrappers` holds `Option` and `Fetched`. `Fetched` is a fetch result or a transport failure.
- `Text` holds the character classes and scanners: whitespace runs, `strip`, decimal
  printing and reading, and `str.replace`.
- `Web` holds addresses, responses and the site, which is a function from address to response.
  It also holds the regular expressions that are not modelled, as functions of the page text.
- `Crawler`, `Extractor` and `Synchroniser` follow the three functions above.
- `Hangman` holds the game. Its `class Game` updates its fields in place, like the game
  dictionary does.

Where each source function is modelled:

- `scrape_books` (discord_bot.py:74-97): the function `Crawler.Scrape` is the specification,
  and the method `Crawler.ScrapeBooks` is the page loop proved equal to it.
- `parse_book_detail` (discord_bot.py:99-134):
  - `Extractor.FetchDetail` models the fetch (discord_bot.py:101-102).
  - `Extractor.ParseBookDetail` builds the record (discord_bot.py:127-134).
  - `Extractor.ExtractTitle` models discord_bot.py:104-109.
  - `Extractor.ExtractPrice` models discord_bot.py:114-115.
- `update_database` (discord_bot.py:137-179):
  - `Synchroniser.Pass` is one whole pass.
  - `Synchroniser.SyncAll` is the item loop.
  - `Synchroniser.SyncPages` is that loop as a method, proved equal to `SyncAll`.
  - `Synchroniser.Record` is one iteration.
  - `Synchroniser.Delta` is the change at discord_bot.py:155, with its `prev or last` reading.
  - `Synchroniser.Catalog.UpdateDatabase` is the method that runs the pass on the tables.
- `hangman` (discord_bot.py:503-517): `Hangman.Start` and `Hangman.NewGame`.
- `guess` (discord_bot.py:520-547): the function `Hangman.GuessStep` is the specification, and
  the method `Hangman.Game.Guess` is proved equal to it.

Prices are whole pence, so `12.34` is `1234`. The store is a map from identifier to row,
plus the history sequence. `class Catalog` holds that store as fields. Its method
`UpdateDatabase` runs the item loop (`SyncPages`) on a copy of the tables, and writes the
copy back only when the pass commits.

## Model

| member | source | states |
|---|---|---|
| Crawler.PageAddressInjective | discord_bot.py:79 | two different page numbers give two different listing addresses |
| Crawler.ScrapeRequestsConsecutivePages | discord_bot.py:78-82 | the crawl requests pages 1, 2, 3, … in order, and at most `max_pages` of them (none when the bound is below 1) |
| Crawler.ScrapeFetchesEachPageOnce | discord_bot.py:78-82 | no listing address is requested twice in one crawl |
| Crawler.CrawlFromRequests | discord_bot.py:78-88 | from page `n` on, the pages requested are `n, n+1, …`, never past the bound |
| Crawler.CrawlFromStopsAtEmpty | discord_bot.py:86-88 | full pages followed by a page without links: the crawl ends at that page and yields the links of the full pages |
| Crawler.ScrapeStopsAfterFirstEmptyPage | discord_bot.py:78-94 | if pages 1..k have links and page k+1 has none, exactly k+1 pages are fetched and the result is the deduplicated links of pages 1..k |
| Crawler.CrawlFromAllFull | discord_bot.py:78-94 | when every page up to the bound has links, all of them are read and their links concatenated |
| Crawler.ScrapeStopsAtMaxPages | discord_bot.py:78 | a site that never runs out of links is read for exactly `max_pages` pages |
| Crawler.CrawlFromAbortsAt | discord_bot.py:82-83 | a failed listing fetch after full pages fails the crawl, and that page is the last one requested |
| Crawler.ScrapeFailsOnListingFailure | discord_bot.py:82-83 | a listing page that fails to fetch or has an error status fails the whole crawl, after exactly that many requests |
| Crawler.Dedup | discord_bot.py:93-94 | the deduplicated list has no repeats and holds exactly the elements of its input |
| Crawler.DedupFirstSeenOrder | discord_bot.py:93-94 | deduplication keeps elements in the order of their first occurrence |
| Crawler.ScrapeFirstSeen | discord_bot.py:90-97 | the returned identifiers are the distinct links seen, each once, ordered by first sighting |
| Crawler.DirectoryEnd | discord_bot.py:91 | the directory part of an address ends at its last `/`, and no `/` follows |
| Crawler.SecureAndPlainAgree | discord_bot.py:92 | rewriting a link that starts with the secure prefix or with the plain prefix gives the same plain result |
| Crawler.SecureLinkSameIdentifier | discord_bot.py:91-92 | an absolute `https` link and its `http` twin give the same identifier |
| Crawler.AppendNewLinks | discord_bot.py:90-94 | the inner loop leaves the list equal to the first-seen deduplication of all links so far |
| Crawler.ScrapeBooks | discord_bot.py:74-97 | the page loop returns the crawl's result and requests, and its list never holds a duplicate |
| Text.SpanEnd | discord_bot.py:104 | a greedy repetition of a character class ends at the first character outside the class |
| Text.Strip | discord_bot.py:106 | `strip()` drops exactly the leading and trailing whitespace |
| Text.Decimal | discord_bot.py:79 | `str(n)` is a non-empty run of digits without a leading zero, a single digit below ten |
| Text.DecimalRoundTrip | discord_bot.py:79 | reading back the decimal form of `n` gives `n` |
| Text.ReplaceAllSkips | discord_bot.py:92 | `replace` leaves unchanged a prefix in which the pattern does not start |
| Extractor.Search | discord_bot.py:104 | `re.search` returns the leftmost offset where the pattern matches, or nothing when no offset matches |
| Extractor.SearchFindsFirst | discord_bot.py:104 | if the pattern first matches at `i`, the search returns `i` |
| Extractor.HeadingEnd | discord_bot.py:104 | a match of `<h1>([^<]+)</h1>` at an offset is a real heading with a non-empty group free of `<` |
| Extractor.HeadingEndComplete | discord_bot.py:104 | every heading at an offset is the one the matcher finds there |
| Extractor.TitleEnd | discord_bot.py:108 | a match of the page-title pattern has the lazy group: the shortest one followed by optional whitespace, a vertical bar and the site name in any case, with no line break |
| Extractor.TitleEndComplete | discord_bot.py:108 | every page title at an offset is found there, with the shortest group |
| Extractor.HeadingLeftmost | discord_bot.py:104-106 | the heading search finds the leftmost heading, and finds none only when the page has none |
| Extractor.TitleLeftmost | discord_bot.py:108-109 | the page-title search finds the leftmost page title, and finds none only when the page has none |
| Extractor.ExtractTitleFallback | discord_bot.py:104-109 | the title is the stripped leftmost heading; failing that, the stripped leftmost page title; failing both, `"Unknown"` |
| Extractor.PriceSpan | discord_bot.py:114 | a price match is the pound sign, optional whitespace, digits, a point and two digits |
| Extractor.PriceSpanComplete | discord_bot.py:114 | every price token at an offset is the match found there, with that group |
| Extractor.ToPenceOfGroup | discord_bot.py:115 | converting the matched group gives pounds times 100 plus the two decimals |
| Extractor.PriceLeftmost | discord_bot.py:114 | the price search finds the leftmost price token, and finds none only when there is none |
| Extractor.ExtractPriceNone | discord_bot.py:114-115 | the price is absent exactly when the page has no price token |
| Extractor.ExtractPriceIsFirstToken | discord_bot.py:114-115 | the price is the value of the leftmost price token |
| Extractor.RenderedPriceAt | discord_bot.py:114-115 | a printed price embedded after a pound sign is a price token whose pounds and pence read back as the amount printed |
| Extractor.PriceRoundTrip | discord_bot.py:114-115 | a price printed as `£pounds.cc` is read back as the same amount, whatever follows, if no pound sign precedes it |
| Extractor.ExtractTitleIsFirstHeading | discord_bot.py:104-106 | when the leftmost heading ends its group at `e`, the title is that group stripped |
| Extractor.ExtractTitleIsFirstPageTitle | discord_bot.py:107-109 | on a page without a heading, when the leftmost page title has the group ending at `p`, the title is that group stripped |
| Extractor.ParseBookDetailFields | discord_bot.py:99-134 | the record names the address it was read for; the title is the stripped leftmost heading, else the stripped leftmost page title, else `"Unknown"`; the price is absent exactly when the page has no price token, and otherwise is the value of the leftmost token; genre, availability and rating are the three searches on the same text |
| Synchroniser.Truncate | discord_bot.py:143-144 | `urls[:limit]` is a prefix of the right length, including for a negative limit; without a limit it is all of them; it keeps the list free of repeats |
| Synchroniser.SyncAllOkIff | discord_bot.py:146-147 | the item loop completes exactly when every item page read succeeds |
| Synchroniser.SyncAllHistory | discord_bot.py:146-175 | the loop appends one history row per priced item, in order, and leaves earlier rows alone |
| Synchroniser.SyncAllLeavesOthers | discord_bot.py:148-149 | rows of items not visited, or visited without a price, are unchanged |
| Synchroniser.SyncAllKeys | discord_bot.py:151-173 | after the loop, the rows are the old rows plus one per priced item |
| Synchroniser.SyncAllUpsertsOnce | discord_bot.py:151-173 | with distinct identifiers, each priced item's row is its old row refreshed once, or a new row |
| Synchroniser.SyncAllRefreshes | discord_bot.py:152-172 | an updated row takes the new price, fields and check time, keeps its old price as previous and records the change with the zero-price quirk; a new row has no previous price and no change |
| Synchroniser.FetcherKeepsUrl | discord_bot.py:127-128 | a record read for an identifier carries that identifier |
| Synchroniser.SyncAllKeepsValid | discord_bot.py:162-175 | every row stays under its own identifier, and every history row names a stored item |
| Synchroniser.PassKeepsValid | discord_bot.py:137-177 | a committed pass keeps the store well formed |
| Synchroniser.PassCommitsIff | discord_bot.py:142-177 | a pass commits exactly when the crawl succeeds and every item page it visits is reachable |
| Synchroniser.RecrawlIsStable | discord_bot.py:152-175 | after two passes over an unchanged site, each priced item's current and previous prices agree with a change of zero, and the history holds both passes' rows |
| Synchroniser.Upsert | discord_bot.py:148-175 | one loop iteration on the session's tables is the record step: skip an unpriced item, otherwise upsert its row and append a history row |
| Synchroniser.Catalog.constructor | discord_bot.py:70 | a new catalogue has no rows and no history |
| Synchroniser.SyncPages | discord_bot.py:146-173 | the item loop, run on a working copy of the tables, yields exactly the item-loop specification's result: the first unreadable page fails it, otherwise every item is recorded in order |
| Synchroniser.Catalog.UpdateDatabase | discord_bot.py:137-179 | commits exactly when the pass succeeds, and the new tables are then the pass's result; otherwise nothing changes |
| Hangman.Upper | discord_bot.py:525 | the upper-cased character is never a small letter and is the same character ignoring case: a small letter becomes its capital, anything else is kept |
| Hangman.UpperAll | discord_bot.py:525 | `upper()` keeps the length, and each character becomes one that is not a small letter and equals the original ignoring case |
| Hangman.SecretOf | discord_bot.py:509-510 | the secret has the title's length and holds only capitals and spaces; a space stands exactly where the title has a non-letter, and every other place holds the title's letter in capitals |
| Hangman.Start | discord_bot.py:503-517 | with no book there is no game; otherwise the game of the chosen title, well formed |
| Hangman.NewGameValid | discord_bot.py:509-517 | a new game is well formed, has six tries, and shows `·` for each letter and a space for anything else |
| Hangman.Game.constructor | discord_bot.py:509-517 | the game object starts as the new game of the chosen title |
| Hangman.WonIffAllLettersGuessed | discord_bot.py:536 | no hidden letter is left exactly when every letter of the secret was guessed |
| Hangman.Reveal | discord_bot.py:533-535 | the reveal loop writes the letter at every place where the secret has it and leaves the rest |
| Hangman.RevealIsMask | discord_bot.py:532-535 | revealing a letter on the display of the guessed set gives the display of that set plus the letter |
| Hangman.MaskIgnoresAbsent | discord_bot.py:541-547 | a letter that is not in the secret leaves the display unchanged |
| Hangman.MissesAfterGuess | discord_bot.py:530-542 | a new letter in the secret costs no try; a new letter not in it costs exactly one |
| Hangman.HitKeepsValid | discord_bot.py:530-540 | recording and revealing a new letter of the secret keeps the game well formed, whether it ends or goes on |
| Hangman.MissKeepsValid | discord_bot.py:530-547 | recording a new letter that is not in the secret and spending a try keeps the game well formed, whether it ends or goes on |
| Hangman.GuessKeepsValid | discord_bot.py:520-547 | a guess keeps the display equal to the guessed letters shown, and the tries equal to six minus the misses |
| Hangman.GuessStepSpec | discord_bot.py:520-547 | without a game, with anything but one letter, or with a letter already tried, nothing changes and the matching reply is sent; a new letter that is in the secret is revealed at no cost and wins once all letters are found; a new letter that is not costs a try and loses at zero |
| Hangman.Game.Guess | discord_bot.py:520-547 | the in-place update and the reply are exactly the guess step of the game before the call |

## Left out

- HTTP, the database session and the clock are modelled as follows:
  - The site is a function from address to response.
  - The tables are a map and a sequence.
  - The timestamp is a parameter.
  - Request headers, logging output and the session's own errors are not modelled.
- Detail-fetch failures: the detail fetch at discord_bot.py:101 is not caught, so an
  unreachable item page aborts the whole pass and nothing is committed.
- A detail page with an error status is parsed like any other, because the code does not
  check its status.
- Regular expressions: the product-link, breadcrumb (genre), availability and rating patterns
  are abstract functions of the page text, including the tag stripping of genre and
  availability. The heading, page-title and price patterns are modelled exactly, with
  leftmost-match semantics.
- `urljoin` is modelled only as far as the site's links need it:
  - An absolute link that starts with the exact lower-case `http://` or `https://` is kept.
  - Any other link is appended to the directory of the page address.

  Python's `urljoin` differs on the following, which are not modelled:
  - dot-segment removal;
  - root-relative `/…` links and scheme-relative `//host/…` links;
  - an empty link, which gives the page address itself rather than its directory;
  - upper-case schemes such as `HTTP://`, and other schemes such as `mailto:`;
  - query and fragment handling.
- Character handling is ASCII only:
  - Digits: `\d` and `int()` are ASCII digits only.
  - Case: `re.IGNORECASE`, `upper()` and `isalpha()` work on ASCII letters only. Unicode
    letters and multi-character upper-casing such as `ß` to `SS` are not modelled.
  - Whitespace: the set is Python's `isspace()` set, written out.
- Prices are exact whole pence. Float parsing (`float()`), `round(…, 2)` and the rounding of
  the `Float` columns (discord_bot.py:45-47, 65) are not modelled.
- The scheduler that calls `update_database`, the Discord commands other than `!hangman` and
  `!guess`, and the message formatting are outside this model.
- Hangman:
  - The random choice of a book is the `choice` index parameter of `Hangman.Start`.
  - The per-channel game table is a single `Game` object whose `active` flag stands for the
    entry's presence.
  - The replies are a datatype, not formatted text.
- Hangman.Game.Guess: each `!guess` is modelled as one uninterrupted step. The finished game
  is marked inactive together with the reply. The source removes a finished game only after
  the reply has been sent (discord_bot.py:537-538, 544-545). So the following are not modelled:
  - a `!guess` handled while that send is awaited, which still finds the finished game;
  - a `!hangman` started meanwhile, whose new game the pending removal deletes;
  - a send that fails, which leaves the finished game in place.
- Hangman.Game.Guess: its contract does not restate that the game stays well formed.
  `Hangman.GuessKeepsValid` proves that about the guess step the method is equal to.
