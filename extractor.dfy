/** The detail extractor: turns one item page's text into a record of optional fields. */
module Extractor {
  import opened Wrappers
  import opened Text
  import opened Web

  /** What `parse_book_detail` returns; the price is in pence. */
  datatype BookDetail = BookDetail(
    url: Url,
    title: string,
    genre: Option<string>,
    price: Option<nat>,
    availability: Option<string>,
    rating: Option<string>)

  // ---------------------------------------------------------------------------
  // The three searches the extractor spells out

  /** `<h1>([^<]+)</h1>`, `<title>\s*(.*?)\s*\|\s*Books to Scrape` (case-insensitive) and `£\s*(\d+\.\d{2})`. */
  datatype Pattern = Heading | PageTitle | PriceTag

  /** The pattern tried at offset `i` alone: its group, if it matches there. */
  function MatchAt(pat: Pattern, s: string, i: nat): Option<string> {
    match pat
    case Heading =>
      (match HeadingEnd(s, i) case Some(e) => Some(s[i + 4..e]) case None => None)
    case PageTitle =>
      (match TitleEnd(s, i) case Some(p) => Some(s[GroupStart(s, i)..p]) case None => None)
    case PriceTag =>
      (match PriceSpan(s, i) case Some((a, e)) => Some(s[a..e + 3]) case None => None)
  }

  /** `re.search` from offset `i`: the offset of the leftmost match. */
  function Search(pat: Pattern, s: string, i: nat): (r: Option<nat>)
    requires i <= |s| + 1
    ensures r.Some? ==> && i <= r.value <= |s| && MatchAt(pat, s, r.value).Some?
                        && forall j :: i <= j < r.value ==> MatchAt(pat, s, j).None?
    ensures r.None? ==> forall k :: i <= k <= |s| ==> MatchAt(pat, s, k).None?
    decreases |s| + 1 - i
  {
    if i > |s| then None
    else
      var here := MatchAt(pat, s, i);
      if here.Some? then Some(i) else Search(pat, s, i + 1)
  }

  /** The search stops at the first offset where the pattern matches. */
  lemma SearchFindsFirst(pat: Pattern, s: string, from: nat, i: nat)
    requires from <= i <= |s|
    requires MatchAt(pat, s, i).Some?
    requires forall j :: from <= j < i ==> MatchAt(pat, s, j).None?
    ensures Search(pat, s, from) == Some(i)
  {
    var r := Search(pat, s, from);
    assert r.Some? && !(r.value < i) && !(i < r.value);
  }

  // ---------------------------------------------------------------------------
  // Title, first choice: the heading

  const H1Open: string := "<h1>"
  const H1Close: string := "</h1>"

  /** The heading pattern matches at offset `i` with its group `s[i + 4..e]`: a non-empty run
      without '<' between the tags. */
  predicate HeadingAt(s: string, i: nat, e: nat) {
    && StartsAt(s, i, H1Open)
    && i + 4 < e <= |s|
    && (forall k :: i + 4 <= k < e ==> s[k] != '<')
    && StartsAt(s, e, H1Close)
  }

  /** The heading pattern tried at offset `i`: the greedy `[^<]+` run must be followed by the
      closing tag; the end of the group if it is. */
  function HeadingEnd(s: string, i: nat): (r: Option<nat>)
    ensures r.Some? ==> HeadingAt(s, i, r.value)
  {
    if StartsAt(s, i, H1Open) then
      var e := SpanEnd(s, i + 4, NotLt);
      if e > i + 4 && StartsAt(s, e, H1Close) then Some(e) else None
    else None
  }

  /** The matcher misses no heading: whatever the pattern matches at `i`, HeadingEnd finds. */
  lemma HeadingEndComplete(s: string, i: nat, e: nat)
    requires HeadingAt(s, i, e)
    ensures HeadingEnd(s, i) == Some(e)
    ensures MatchAt(Heading, s, i) == Some(s[i + 4..e])
  {
    assert s[e] == H1Close[0];
    SpanEndUnique(s, i + 4, e, NotLt);
  }

  // ---------------------------------------------------------------------------
  // Title, second choice: the page title before the site name

  const TitleOpen: string := "<title>"
  const SiteSuffix: string := "books to scrape"

  /** `\s*\|\s*Books to Scrape` matches at offset `p` (the greedy `\s*` cannot give back to `|`). */
  predicate TailAt(s: string, p: nat)
    decreases |s| - p
  {
    p < |s| && if IsSpace(s[p]) then TailAt(s, p + 1) else s[p] == '|' && SuffixAt(s, p + 1)
  }

  /** `\s*Books to Scrape` matches at offset `p`, ignoring case. */
  predicate SuffixAt(s: string, p: nat)
    decreases |s| - p
  {
    p <= |s| && if p < |s| && IsSpace(s[p]) then SuffixAt(s, p + 1) else StartsAtFolded(s, p, SiteSuffix)
  }

  /** Where the group of the page-title pattern starts: after the tag and the greedy `\s*`. */
  function GroupStart(s: string, i: nat): nat
    requires i + |TitleOpen| <= |s|
  {
    SpanEnd(s, i + 7, Space)
  }

  /** The page-title pattern matches at offset `i` with its group ending at `p`: the group is
      the shortest line-break-free run from GroupStart that the tail follows. */
  predicate TitleAt(s: string, i: nat, p: nat) {
    && StartsAtFolded(s, i, TitleOpen)
    && var a := GroupStart(s, i);
       && a <= p <= |s|
       && (forall k :: a <= k < p ==> s[k] != '\n')
       && TailAt(s, p)
       && forall q :: a <= q < p ==> !TailAt(s, q)
  }

  /** The lazy `(.*?)` widened one character at a time from `a`, now ending at `p`. */
  function ShortestGroup(s: string, a: nat, p: nat): (r: Option<nat>)
    requires a <= p <= |s|
    requires forall k :: a <= k < p ==> s[k] != '\n'
    requires forall q :: a <= q < p ==> !TailAt(s, q)
    ensures r.Some? ==> && a <= r.value <= |s|
                        && (forall k :: a <= k < r.value ==> s[k] != '\n')
                        && TailAt(s, r.value)
                        && forall q :: a <= q < r.value ==> !TailAt(s, q)
    decreases |s| - p
  {
    if TailAt(s, p) then Some(p)
    else if p < |s| && s[p] != '\n' then ShortestGroup(s, a, p + 1)
    else None
  }

  /** The page-title pattern tried at offset `i`: the end of its group, if it matches there. */
  function TitleEnd(s: string, i: nat): (r: Option<nat>)
    ensures r.Some? ==> TitleAt(s, i, r.value)
  {
    if StartsAtFolded(s, i, TitleOpen) then ShortestGroup(s, GroupStart(s, i), GroupStart(s, i)) else None
  }

  lemma {:induction false} ShortestGroupReaches(s: string, a: nat, p: nat, end: nat)
    requires a <= p <= end <= |s|
    requires forall k :: a <= k < end ==> s[k] != '\n'
    requires TailAt(s, end)
    requires forall q :: a <= q < end ==> !TailAt(s, q)
    ensures ShortestGroup(s, a, p) == Some(end)
    decreases end - p
  {
    if p < end {
      ShortestGroupReaches(s, a, p + 1, end);
    }
  }

  /** The matcher misses no page title: whatever the pattern matches at `i`, TitleEnd finds. */
  lemma TitleEndComplete(s: string, i: nat, p: nat)
    requires TitleAt(s, i, p)
    ensures TitleEnd(s, i) == Some(p)
    ensures MatchAt(PageTitle, s, i) == Some(s[GroupStart(s, i)..p])
  {
    ShortestGroupReaches(s, GroupStart(s, i), GroupStart(s, i), p);
  }

  // ---------------------------------------------------------------------------
  // The title

  /** The title: the stripped heading, else the stripped page title before the site name, else "Unknown". */
  function ExtractTitle(html: string): string {
    match Search(Heading, html, 0)
    case Some(i) => Strip(MatchAt(Heading, html, i).value)
    case None =>
      match Search(PageTitle, html, 0)
      case Some(i) => Strip(MatchAt(PageTitle, html, i).value)
      case None => "Unknown"
  }

  /** The heading search finds the leftmost heading, and finds none only when there is none. */
  lemma HeadingLeftmost(html: string)
    ensures Search(Heading, html, 0).None? <==> forall i: nat, e: nat :: !HeadingAt(html, i, e)
    ensures Search(Heading, html, 0).Some? ==>
              var i := Search(Heading, html, 0).value;
              && HeadingEnd(html, i).Some?
              && forall j: nat, e': nat :: j < i ==> !HeadingAt(html, j, e')
  {
    var r := Search(Heading, html, 0);
    forall i: nat, e: nat | HeadingAt(html, i, e) ensures r.Some? {
      HeadingEndComplete(html, i, e);
    }
    if r.Some? {
      forall j: nat, e': nat | j < r.value ensures !HeadingAt(html, j, e') {
        if HeadingAt(html, j, e') {
          HeadingEndComplete(html, j, e');
        }
      }
    }
  }

  /** The page-title search finds the leftmost page title, and finds none only when there is none. */
  lemma TitleLeftmost(html: string)
    ensures Search(PageTitle, html, 0).None? <==> forall i: nat, p: nat :: !TitleAt(html, i, p)
    ensures Search(PageTitle, html, 0).Some? ==>
              var i := Search(PageTitle, html, 0).value;
              && TitleEnd(html, i).Some?
              && forall j: nat, p': nat :: j < i ==> !TitleAt(html, j, p')
  {
    var r := Search(PageTitle, html, 0);
    forall i: nat, p: nat | TitleAt(html, i, p) ensures r.Some? {
      TitleEndComplete(html, i, p);
    }
    if r.Some? {
      forall j: nat, p': nat | j < r.value ensures !TitleAt(html, j, p') {
        if TitleAt(html, j, p') {
          TitleEndComplete(html, j, p');
        }
      }
    }
  }

  /** The title is never absent and follows the three-step fallback, each step taking the leftmost match. */
  lemma ExtractTitleFallback(html: string)
    ensures (exists i: nat, e: nat :: HeadingAt(html, i, e)) ==>
              exists i: nat, e: nat :: && HeadingAt(html, i, e) && ExtractTitle(html) == Strip(html[i + 4..e])
                                       && forall j: nat, e': nat :: j < i ==> !HeadingAt(html, j, e')
    ensures (forall i: nat, e: nat :: !HeadingAt(html, i, e)) && (exists i: nat, p: nat :: TitleAt(html, i, p)) ==>
              exists i: nat, p: nat :: && TitleAt(html, i, p) && ExtractTitle(html) == Strip(html[GroupStart(html, i)..p])
                                       && forall j: nat, p': nat :: j < i ==> !TitleAt(html, j, p')
    ensures (forall i: nat, e: nat :: !HeadingAt(html, i, e)) && (forall i: nat, p: nat :: !TitleAt(html, i, p)) ==>
              ExtractTitle(html) == "Unknown"
  {
    HeadingLeftmost(html);
    match Search(Heading, html, 0)
    case Some(i) =>
      var e := HeadingEnd(html, i).value;
      assert HeadingAt(html, i, e) && ExtractTitle(html) == Strip(html[i + 4..e]);
    case None =>
      TitleLeftmost(html);
      match Search(PageTitle, html, 0)
      case Some(i) =>
        var p := TitleEnd(html, i).value;
        assert TitleAt(html, i, p) && ExtractTitle(html) == Strip(html[GroupStart(html, i)..p]);
      case None =>
  }

  /** When the leftmost heading is at `i` with its group ending at `e`, the title is that group stripped. */
  lemma ExtractTitleIsFirstHeading(html: string, i: nat, e: nat)
    requires HeadingAt(html, i, e)
    requires forall j: nat, e': nat :: j < i ==> !HeadingAt(html, j, e')
    ensures ExtractTitle(html) == Strip(html[i + 4..e])
  {
    forall j | 0 <= j < i ensures MatchAt(Heading, html, j).None? {
      assert HeadingEnd(html, j).None?;
    }
    HeadingEndComplete(html, i, e);
    SearchFindsFirst(Heading, html, 0, i);
  }

  /** Without a heading, when the leftmost page title is at `i` with its group ending at `p`, the
      title is that group stripped. */
  lemma ExtractTitleIsFirstPageTitle(html: string, i: nat, p: nat)
    requires forall j: nat, e: nat :: !HeadingAt(html, j, e)
    requires TitleAt(html, i, p)
    requires forall j: nat, p': nat :: j < i ==> !TitleAt(html, j, p')
    ensures ExtractTitle(html) == Strip(html[GroupStart(html, i)..p])
  {
    HeadingLeftmost(html);
    forall j | 0 <= j < i ensures MatchAt(PageTitle, html, j).None? {
      assert TitleEnd(html, j).None?;
    }
    TitleEndComplete(html, i, p);
    SearchFindsFirst(PageTitle, html, 0, i);
  }

  // ---------------------------------------------------------------------------
  // Price

  const Pound: char := '£'

  /** The price pattern matches at offset `i`: the pound sign, whitespace up to `a`, the digits
      `s[a..e]`, a point and two digits; the group is `s[a..e + 3]`. */
  predicate PriceAt(s: string, i: nat, a: nat, e: nat) {
    && i < a < e && e + 3 <= |s|
    && s[i] == Pound
    && (forall k :: i + 1 <= k < a ==> IsSpace(s[k]))
    && (forall k :: a <= k < e ==> IsDigit(s[k]))
    && s[e] == '.' && IsDigit(s[e + 1]) && IsDigit(s[e + 2])
  }

  /** The price pattern tried at offset `i`: greedy whitespace, greedy digits, a point, two
      digits; where the digits start and where the point is, if it matches there. */
  function PriceSpan(s: string, i: nat): (r: Option<(nat, nat)>)
    ensures r.Some? ==> PriceAt(s, i, r.value.0, r.value.1)
  {
    if i < |s| && s[i] == Pound then
      var a := SpanEnd(s, i + 1, Space);
      var e := SpanEnd(s, a, Digit);
      if a < e && e + 3 <= |s| && s[e] == '.' && IsDigit(s[e + 1]) && IsDigit(s[e + 2]) then Some((a, e))
      else None
    else None
  }

  /** The matcher misses no price token: whatever the pattern matches at `i`, PriceSpan finds. */
  lemma PriceSpanComplete(s: string, i: nat, a: nat, e: nat)
    requires PriceAt(s, i, a, e)
    ensures PriceSpan(s, i) == Some((a, e))
    ensures MatchAt(PriceTag, s, i) == Some(s[a..e + 3])
  {
    assert InClass(s[a], Digit);
    SpanEndUnique(s, i + 1, a, Space);
    SpanEndUnique(s, a, e, Digit);
  }

  /** The amount, in pence, of the token whose digits are `s[a..e]` and `s[e + 1..e + 3]`. */
  function PriceValue(s: string, a: nat, e: nat): nat
    requires a <= e && e + 3 <= |s|
    requires forall k :: a <= k < e ==> IsDigit(s[k])
    requires IsDigit(s[e + 1]) && IsDigit(s[e + 2])
  {
    DigitsValue(s[a..e]) * 100 + DigitsValue(s[e + 1..e + 3])
  }

  /** `float(group)` for a group of the price pattern, in pence. */
  function ToPence(g: string): nat {
    if |g| >= 3 && AllDigits(g[..|g| - 3]) && AllDigits(g[|g| - 2..]) then
      DigitsValue(g[..|g| - 3]) * 100 + DigitsValue(g[|g| - 2..])
    else 0
  }

  lemma ToPenceOfGroup(s: string, i: nat, a: nat, e: nat)
    requires PriceAt(s, i, a, e)
    ensures ToPence(s[a..e + 3]) == PriceValue(s, a, e)
  {
    var g := s[a..e + 3];
    assert g[..|g| - 3] == s[a..e];
    assert g[|g| - 2..] == s[e + 1..e + 3];
  }

  /** `float(pm.group(1)) if pm else None`, in pence. */
  function ExtractPrice(html: string): Option<nat> {
    match Search(PriceTag, html, 0)
    case Some(i) => Some(ToPence(MatchAt(PriceTag, html, i).value))
    case None => None
  }

  /** The price search finds the leftmost price token, and finds none only when there is none. */
  lemma PriceLeftmost(html: string)
    ensures Search(PriceTag, html, 0).None? <==> forall i: nat, a: nat, e: nat :: !PriceAt(html, i, a, e)
    ensures Search(PriceTag, html, 0).Some? ==>
              var i := Search(PriceTag, html, 0).value;
              && PriceSpan(html, i).Some?
              && forall j: nat, a': nat, e': nat :: j < i ==> !PriceAt(html, j, a', e')
  {
    var r := Search(PriceTag, html, 0);
    forall i: nat, a: nat, e: nat | PriceAt(html, i, a, e) ensures r.Some? {
      PriceSpanComplete(html, i, a, e);
    }
    if r.Some? {
      forall j: nat, a': nat, e': nat | j < r.value ensures !PriceAt(html, j, a', e') {
        if PriceAt(html, j, a', e') {
          PriceSpanComplete(html, j, a', e');
        }
      }
    }
  }

  /** The price is the amount of the first price token of the page, and absent exactly when the
      page has none. */
  lemma ExtractPriceNone(html: string)
    ensures ExtractPrice(html).None? <==> forall i: nat, a: nat, e: nat :: !PriceAt(html, i, a, e)
  {
    PriceLeftmost(html);
  }

  /** When the leftmost price token is at `i`, with its pounds at `a..e`, the price read is the
      value of that token. */
  lemma ExtractPriceIsFirstToken(html: string, i: nat, a: nat, e: nat)
    requires PriceAt(html, i, a, e)
    requires forall j: nat, a': nat, e': nat :: j < i ==> !PriceAt(html, j, a', e')
    ensures ExtractPrice(html) == Some(PriceValue(html, a, e))
  {
    forall j | 0 <= j < i ensures MatchAt(PriceTag, html, j).None? {
      assert PriceSpan(html, j).None?;
    }
    PriceSpanComplete(html, i, a, e);
    ToPenceOfGroup(html, i, a, e);
    SearchFindsFirst(PriceTag, html, 0, i);
  }

  /** The two decimals of an amount of pence. */
  function Cents(p: nat): string {
    [DigitChar(p % 100 / 10), DigitChar(p % 10)]
  }

  /** How the site prints an amount of pence: whole pounds, a point, two decimals. */
  function RenderPrice(p: nat): string {
    Decimal(p / 100) + "." + Cents(p)
  }

  lemma CentsValue(p: nat)
    ensures AllDigits(Cents(p)) && DigitsValue(Cents(p)) == p % 100
  {
    var c := Cents(p);
    assert c[..1] == [c[0]] && [c[0]][..0] == [];
    assert DigitsValue([c[0]]) == p % 100 / 10;
  }

  /** Where the parts of a printed price sit once it is embedded in a page. */
  lemma PriceLayout(prefix: string, whole: string, cents: string, suffix: string)
    requires |whole| >= 1 && AllDigits(whole) && |cents| == 2 && AllDigits(cents)
    ensures var s := prefix + [Pound] + (whole + "." + cents) + suffix;
            var a := |prefix| + 1;
            var e := a + |whole|;
            && PriceAt(s, |prefix|, a, e) && s[a..e] == whole && s[e + 1..e + 3] == cents
            && s[..|prefix|] == prefix
  {
    var s := prefix + [Pound] + (whole + "." + cents) + suffix;
    var a := |prefix| + 1;
    var e := a + |whole|;
    assert s[a..e] == whole;
    assert s[e + 1..e + 3] == cents;
    assert s[e] == '.';
    assert s[e + 1] == cents[0] && s[e + 2] == cents[1];
  }

  /** A printed price embedded after a pound sign is a price token that reads as the amount printed. */
  lemma RenderedPriceAt(prefix: string, p: nat, suffix: string)
    ensures var s := prefix + [Pound] + RenderPrice(p) + suffix;
            var a := |prefix| + 1;
            var e := a + |Decimal(p / 100)|;
            PriceAt(s, |prefix|, a, e) && PriceValue(s, a, e) == p && s[..|prefix|] == prefix
  {
    var s := prefix + [Pound] + RenderPrice(p) + suffix;
    var a := |prefix| + 1;
    var e := a + |Decimal(p / 100)|;
    CentsValue(p);
    PriceLayout(prefix, Decimal(p / 100), Cents(p), suffix);
    DecimalRoundTrip(p / 100);
  }

  /** A printed price read back by the extractor gives the amount printed, whatever follows it,
      as long as no pound sign comes before it. */
  lemma PriceRoundTrip(prefix: string, p: nat, suffix: string)
    requires Pound !in prefix
    ensures ExtractPrice(prefix + [Pound] + RenderPrice(p) + suffix) == Some(p)
  {
    var s := prefix + [Pound] + RenderPrice(p) + suffix;
    var i := |prefix|;
    var a := i + 1;
    var e := a + |Decimal(p / 100)|;
    RenderedPriceAt(prefix, p, suffix);
    forall j: nat, a': nat, e': nat | j < i ensures !PriceAt(s, j, a', e') {
      assert s[j] == s[..i][j];
    }
    ExtractPriceIsFirstToken(s, i, a, e);
  }

  // ---------------------------------------------------------------------------
  // The whole record

  /** `parse_book_detail` after the fetch: the text of the page read into a record. */
  function ParseBookDetail(url: Url, html: string, pats: Patterns): (d: BookDetail)
  {
    BookDetail(url, ExtractTitle(html), pats.genre(html), ExtractPrice(html),
               pats.availability(html), pats.rating(html))
  }

  /** The record read from a page: it names the address it was read for; its title is the
      leftmost heading stripped, else the leftmost page title stripped, else "Unknown"; its price
      is absent exactly when the page has no price token, and is otherwise the leftmost token's
      value; the other fields are the abstract searches on the same text. */
  lemma ParseBookDetailFields(url: Url, html: string, pats: Patterns)
    ensures ParseBookDetail(url, html, pats).url == url
    ensures forall i: nat, e: nat :: HeadingAt(html, i, e) && (forall j: nat, e': nat :: j < i ==> !HeadingAt(html, j, e')) ==>
              ParseBookDetail(url, html, pats).title == Strip(html[i + 4..e])
    ensures (forall i: nat, e: nat :: !HeadingAt(html, i, e)) ==>
              forall i: nat, p: nat :: TitleAt(html, i, p) && (forall j: nat, p': nat :: j < i ==> !TitleAt(html, j, p')) ==>
                ParseBookDetail(url, html, pats).title == Strip(html[GroupStart(html, i)..p])
    ensures (forall i: nat, e: nat :: !HeadingAt(html, i, e)) && (forall i: nat, p: nat :: !TitleAt(html, i, p)) ==>
              ParseBookDetail(url, html, pats).title == "Unknown"
    ensures ParseBookDetail(url, html, pats).price.None? <==> forall i: nat, a: nat, e: nat :: !PriceAt(html, i, a, e)
    ensures forall i: nat, a: nat, e: nat :: PriceAt(html, i, a, e) && (forall j: nat, a': nat, e': nat :: j < i ==> !PriceAt(html, j, a', e')) ==>
              ParseBookDetail(url, html, pats).price == Some(PriceValue(html, a, e))
    ensures ParseBookDetail(url, html, pats).genre == pats.genre(html)
    ensures ParseBookDetail(url, html, pats).availability == pats.availability(html)
    ensures ParseBookDetail(url, html, pats).rating == pats.rating(html)
  {
    forall i: nat, e: nat | HeadingAt(html, i, e) && (forall j: nat, e': nat :: j < i ==> !HeadingAt(html, j, e'))
      ensures ExtractTitle(html) == Strip(html[i + 4..e])
    {
      ExtractTitleIsFirstHeading(html, i, e);
    }
    if forall i: nat, e: nat :: !HeadingAt(html, i, e) {
      forall i: nat, p: nat | TitleAt(html, i, p) && (forall j: nat, p': nat :: j < i ==> !TitleAt(html, j, p'))
        ensures ExtractTitle(html) == Strip(html[GroupStart(html, i)..p])
      {
        ExtractTitleIsFirstPageTitle(html, i, p);
      }
    }
    ExtractTitleFallback(html);
    ExtractPriceNone(html);
    forall i: nat, a: nat, e: nat | PriceAt(html, i, a, e) && (forall j: nat, a': nat, e': nat :: j < i ==> !PriceAt(html, j, a', e'))
      ensures ExtractPrice(html) == Some(PriceValue(html, a, e))
    {
      ExtractPriceIsFirstToken(html, i, a, e);
    }
  }

  /** `parse_book_detail(url)`: the fetch fails only when the host is unreachable; the body of
      any response, whatever its status, is parsed. */
  function FetchDetail(site: Site, pats: Patterns, url: Url): Fetched<BookDetail> {
    match site.get(url)
    case Unreachable => Failed
    case Response(_, text) => Ok(ParseBookDetail(url, text, pats))
  }
}
