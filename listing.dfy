/** The listing side of lib/scraper.ts: `extractTotalPages`,
    `extractAuctionItemsFromPage` and `fetchAuctionUrls`. */
module Listing {
  import opened Wrappers
  import opened JsText
  import opened Dom
  import opened Fetcher
  import opened Utils
  import opened Seqs

  const BASE_URL := "https://auctions.yahoo.co.jp"
  /** The substring the anchor selector looks for in `href`. */
  const ITEM_PATH := "/jp/auction/"
  const PAGES_MARKER := "ページ中"
  const TOTAL_LABEL := "合計"
  const COUNT_UNIT := "件"
  /** The page size used when only the item count is printed. */
  const ITEMS_PER_PAGE: nat := 25
  /** The message of the error `fetchAuctionUrls` throws on any failure. */
  const HARVEST_FAILED := "評価ページの取得に失敗しました"

  // ---------------------------------------------------------------------------
  // Total page count

  /** The end of the run of digits that starts at `i`. */
  function DigitRunEnd(s: string, i: nat): (j: nat)
    requires i <= |s|
    ensures i <= j <= |s| && (j < |s| ==> !IsDigit(s[j]))
    ensures forall k :: i <= k < j ==> IsDigit(s[k])
    decreases |s| - i
  {
    if i < |s| && IsDigit(s[i]) then DigitRunEnd(s, i + 1) else i
  }

  /** The end of the run of whitespace that starts at `i`. */
  function SpaceRunEnd(s: string, i: nat): (j: nat)
    requires i <= |s|
    ensures i <= j <= |s| && (j < |s| ==> !IsJsSpace(s[j]))
    ensures forall k :: i <= k < j ==> IsJsSpace(s[k])
    decreases |s| - i
  {
    if i < |s| && IsJsSpace(s[i]) then SpaceRunEnd(s, i + 1) else i
  }

  /** A run of digits followed by a non-digit (or the end) ends where the
      digits end. */
  lemma {:induction false} DigitRunEndAt(s: string, i: nat, j: nat)
    requires i <= j <= |s|
    requires forall k :: i <= k < j ==> IsDigit(s[k])
    requires j < |s| ==> !IsDigit(s[j])
    ensures DigitRunEnd(s, i) == j
    decreases j - i
  {
    if i < j {
      DigitRunEndAt(s, i + 1, j);
    }
  }

  /** `/(\d+)ページ中/` matches starting at `i`: a maximal run of digits
      followed by the marker (the marker does not begin with a digit, so no
      shorter run can be followed by it). */
  predicate PagesMatchAt(s: string, i: nat) {
    i < |s| && IsDigit(s[i]) && OccursAt(s, PAGES_MARKER, DigitRunEnd(s, i))
  }

  /** The number the page-count pattern captures at `i`. */
  function PagesMatchValue(s: string, i: nat): nat
    requires PagesMatchAt(s, i)
  {
    DecimalValue(s[i..DigitRunEnd(s, i)])
  }

  /** Any digits-then-marker occurrence is a match of the page-count pattern
      at its first digit, and it captures exactly those digits. */
  lemma PagesMatchAtIsRegexMatch(s: string, i: nat, j: nat)
    requires i < j <= |s| && (forall k :: i <= k < j ==> IsDigit(s[k])) && OccursAt(s, PAGES_MARKER, j)
    ensures PagesMatchAt(s, i) && DigitRunEnd(s, i) == j
  {
    assert s[j..j + |PAGES_MARKER|] == PAGES_MARKER;
    assert s[j] == PAGES_MARKER[0];
    DigitRunEndAt(s, i, j);
  }

  /** `/合計[：:]\s*(\d+)\s*件/` matches starting at `i`. Each part is
      deterministic: whitespace runs stop at a digit or the unit, and the
      digit run is maximal, so no backtracking is needed. */
  predicate TotalMatchAt(s: string, i: nat) {
    && OccursAt(s, TOTAL_LABEL, i)
    && i + 2 < |s| && (s[i + 2] == '：' || s[i + 2] == ':')
    && var d := SpaceRunEnd(s, i + 3);
       d < |s| && IsDigit(s[d]) && OccursAt(s, COUNT_UNIT, SpaceRunEnd(s, DigitRunEnd(s, d)))
  }

  /** The item count the total pattern captures at `i`. */
  function TotalMatchValue(s: string, i: nat): nat
    requires TotalMatchAt(s, i)
  {
    var d := SpaceRunEnd(s, i + 3);
    DecimalValue(s[d..DigitRunEnd(s, d)])
  }

  /** The two patterns `extractTotalPages` tries, in order. */
  datatype Pattern = PagesPattern | TotalPattern

  predicate MatchesAt(p: Pattern, s: string, i: nat) {
    match p
    case PagesPattern => PagesMatchAt(s, i)
    case TotalPattern => TotalMatchAt(s, i)
  }

  /** The least index from `i` on where `p` matches: the leftmost match a
      regular-expression search reports. */
  function FirstMatch(p: Pattern, s: string, i: nat): (r: Option<nat>)
    ensures r.Some? ==> i <= r.value < |s| && MatchesAt(p, s, r.value) && forall k :: i <= k < r.value ==> !MatchesAt(p, s, k)
    ensures r.None? ==> forall k: nat :: i <= k ==> !MatchesAt(p, s, k)
    decreases |s| - i
  {
    if |s| <= i then None
    else if MatchesAt(p, s, i) then Some(i)
    else FirstMatch(p, s, i + 1)
  }

  /** `Math.ceil(n / d)`. */
  function CeilDiv(n: nat, d: nat): nat
    requires d > 0
  {
    (n + d - 1) / d
  }

  /** `extractTotalPages`: the number before the first "ページ中"; failing
      that, the item count after the first "合計：" divided by 25 and rounded
      up; failing both, 1. */
  function ExtractTotalPages(s: string): nat {
    match FirstMatch(PagesPattern, s, 0)
    case Some(i) => PagesMatchValue(s, i)
    case None =>
      match FirstMatch(TotalPattern, s, 0)
      case Some(i) => CeilDiv(TotalMatchValue(s, i), ITEMS_PER_PAGE)
      case None => 1
  }

  /** The first match of a pattern is the one with no match before it. */
  lemma FirstMatchIs(p: Pattern, s: string, i: nat)
    requires MatchesAt(p, s, i) && forall k :: 0 <= k < i ==> !MatchesAt(p, s, k)
    ensures FirstMatch(p, s, 0) == Some(i)
  {
    assert MatchesAt(p, s, i);
  }

  /** A "ページ中" match decides the page count: the number its leftmost
      match captures. */
  lemma PagesMarkerWins(s: string, i: nat)
    requires PagesMatchAt(s, i) && forall k :: 0 <= k < i ==> !PagesMatchAt(s, k)
    ensures ExtractTotalPages(s) == PagesMatchValue(s, i)
  {
    FirstMatchIs(PagesPattern, s, i);
  }

  /** Without one, the leftmost item count gives the fewest pages of 25 that
      hold that many items. */
  lemma ItemCountFallback(s: string, i: nat)
    requires forall k: nat :: !PagesMatchAt(s, k)
    requires TotalMatchAt(s, i) && forall k :: 0 <= k < i ==> !TotalMatchAt(s, k)
    ensures (ExtractTotalPages(s) - 1) * ITEMS_PER_PAGE < TotalMatchValue(s, i) <= ExtractTotalPages(s) * ITEMS_PER_PAGE
  {
    assert forall k: nat :: !MatchesAt(PagesPattern, s, k);
    FirstMatchIs(TotalPattern, s, i);
  }

  /** Without either, the page count is 1. */
  lemma SinglePageByDefault(s: string)
    requires forall k: nat :: !PagesMatchAt(s, k) && !TotalMatchAt(s, k)
    ensures ExtractTotalPages(s) == 1
  {
    assert forall k: nat :: !MatchesAt(PagesPattern, s, k) && !MatchesAt(TotalPattern, s, k);
  }

  lemma TotalPagesFromMarker()
    ensures ExtractTotalPages("12ページ中1ページ目") == 12
  {
    var s := "12ページ中1ページ目";
    assert OccursAt(s, PAGES_MARKER, 2) by { assert s[2..6] == PAGES_MARKER; }
    PagesMatchAtIsRegexMatch(s, 0, 2);
    PagesMarkerWins(s, 0);
    assert s[0..2] == "12";
    assert DecimalValue("12") == 12 by { assert "12"[..1] == "1"; }
  }

  lemma TotalPagesFromCount()
    ensures ExtractTotalPages("合計：288件") == 12
  {
    var s := "合計：288件";
    NoPagesMarkerIn288(s);
    CountOf288(s);
    ItemCountFallback(s, 0);
  }

  lemma NoPagesMarkerIn288(s: string)
    requires s == "合計：288件"
    ensures forall k: nat :: !PagesMatchAt(s, k)
  {
    forall k: nat ensures !PagesMatchAt(s, k) {
      if k < |s| && IsDigit(s[k]) {
        assert 3 <= k <= 5;
        DigitRunEndAt(s, k, 6);
      }
    }
  }

  lemma CountOf288(s: string)
    requires s == "合計：288件"
    ensures TotalMatchAt(s, 0) && TotalMatchValue(s, 0) == 288
  {
    assert OccursAt(s, TOTAL_LABEL, 0) by { assert s[0..2] == TOTAL_LABEL; }
    assert SpaceRunEnd(s, 3) == 3;
    DigitRunEndAt(s, 3, 6);
    assert SpaceRunEnd(s, 6) == 6;
    assert OccursAt(s, COUNT_UNIT, 6) by { assert s[6..7] == COUNT_UNIT; }
    assert s[3..6] == "288";
    assert DecimalValue("288") == 288 by {
      assert "288"[..2] == "28";
      assert "28"[..1] == "2";
    }
  }

  lemma TotalPagesDefault()
    ensures ExtractTotalPages("評価一覧") == 1
  {
    var s := "評価一覧";
    assert forall k: nat :: !PagesMatchAt(s, k) && !TotalMatchAt(s, k) by {
      assert forall k :: 0 <= k < |s| ==> !IsDigit(s[k]);
      assert forall k :: 0 <= k < |s| ==> s[k] != '合';
    }
    SinglePageByDefault(s);
  }

  // ---------------------------------------------------------------------------
  // Items of one listing page

  /** A harvested candidate: the query-free absolute URL and the best-effort
      title. */
  datatype Candidate = Candidate(url: string, title: string)

  /** A prefix without '?' survives cutting at the first '?'. */
  lemma {:induction false} BeforeFirstKeepsPrefix(p: string, s: string, c: char)
    requires c !in p
    ensures p <= BeforeFirst(p + s, c)
  {
    if p != [] {
      assert (p + s)[1..] == p[1..] + s;
      BeforeFirstKeepsPrefix(p[1..], s, c);
    }
  }

  /** Cutting at the first '?' removes exactly the query. */
  lemma {:induction false} BeforeFirstStops(p: string, rest: string, c: char)
    requires c !in p
    ensures BeforeFirst(p + [c] + rest, c) == p
  {
    if p != [] {
      assert (p + [c] + rest)[1..] == p[1..] + [c] + rest;
      BeforeFirstStops(p[1..], rest, c);
    } else {
      assert (p + [c] + rest)[0] == c;
    }
  }

  /** The href made absolute (`BASE_URL` in front unless it starts with
      "http") and cut at the first '?'. */
  function NormaliseHref(href: string): string {
    BeforeFirst(if "http" <= href then href else BASE_URL + href, '?')
  }

  /** The URL is absolute and query-free: a relative href gets `BASE_URL` in
      front, an absolute one is only cut, and an href without a query is kept
      whole. */
  lemma NormaliseHrefShape(href: string)
    ensures var url := NormaliseHref(href);
      && '?' !in url && "http" <= url
      && (!("http" <= href) ==> BASE_URL <= url)
      && ("http" <= href ==> url <= href)
      && ('?' !in href ==> url == if "http" <= href then href else BASE_URL + href)
  {
    var full := if "http" <= href then href else BASE_URL + href;
    if "http" <= href {
      assert href == "http" + href[4..];
      BeforeFirstKeepsPrefix("http", href[4..], '?');
    } else {
      BeforeFirstKeepsPrefix(BASE_URL, href, '?');
    }
    if '?' !in href {
      BeforeFirstWhole(full, '?');
    }
  }

  lemma {:induction false} BeforeFirstWhole(s: string, c: char)
    requires c !in s
    ensures BeforeFirst(s, c) == s
  {
    if s != [] {
      BeforeFirstWhole(s[1..], c);
    }
  }

  /** Two links to the same item that differ only in their query strings
      give the same URL. */
  lemma QueryIgnored(path: string, q1: string, q2: string)
    requires '?' !in path
    ensures NormaliseHref(path + "?" + q1) == NormaliseHref(path + "?" + q2)
  {
    var h1, h2 := path + "?" + q1, path + "?" + q2;
    assert ("http" <= h1) == ("http" <= h2) by {
      if |path| < 4 {
        assert h1[|path|] == '?' && h2[|path|] == '?';
        assert "http"[|path|] != '?';
      } else {
        assert h1[..4] == path[..4] == h2[..4];
      }
    }
    if "http" <= h1 {
      BeforeFirstStops(path, q1, '?');
      BeforeFirstStops(path, q2, '?');
    } else {
      assert BASE_URL + h1 == (BASE_URL + path) + "?" + q1;
      assert BASE_URL + h2 == (BASE_URL + path) + "?" + q2;
      BeforeFirstStops(BASE_URL + path, q1, '?');
      BeforeFirstStops(BASE_URL + path, q2, '?');
    }
  }

  /** The trimmed anchor text, or the trimmed container title text when the
      anchor text is blank. */
  function AnchorTitle(a: Anchor): string {
    var t := Trim(a.text);
    if t == [] then Trim(a.containerTitleText) else t
  }

  /** The container's title is used exactly when the anchor text is all
      whitespace; either way the title has no whitespace at its ends. */
  lemma AnchorTitleChoice(a: Anchor)
    ensures var title := AnchorTitle(a);
      && (!AllSpace(a.text) ==> title == Trim(a.text))
      && (AllSpace(a.text) ==> title == Trim(a.containerTitleText))
      && (title == [] || (!IsJsSpace(title[0]) && !IsJsSpace(title[|title| - 1])))
  {
  }

  /** The selector `a[href*="/jp/auction/"]`. */
  predicate IsItemAnchor(a: Anchor) {
    a.href.Some? && Contains(a.href.value, ITEM_PATH)
  }

  /** What one selected anchor contributes: nothing unless its href is truthy. */
  function AnchorItems(a: Anchor): seq<Candidate> {
    if IsItemAnchor(a) && a.href.value != [] then [Candidate(NormaliseHref(a.href.value), AnchorTitle(a))] else []
  }

  /** The candidates of a page, in anchor order. */
  function PageItems(anchors: seq<Anchor>): seq<Candidate> {
    FlatMap(anchors, AnchorItems)
  }

  /** Every candidate URL is absolute and free of a query string. */
  lemma PageItemsAbsolute(anchors: seq<Anchor>)
    ensures forall c :: c in PageItems(anchors) ==> '?' !in c.url && "http" <= c.url
  {
    forall c | c in PageItems(anchors)
      ensures '?' !in c.url && "http" <= c.url
    {
      FlatMapOrigin(anchors, AnchorItems, c);
      var a :| a in anchors && c in AnchorItems(a);
      NormaliseHrefShape(a.href.value);
    }
  }

  /** Every candidate of a page comes from one selected anchor of it... */
  lemma PageItemsFromAnchors(anchors: seq<Anchor>, c: Candidate)
    requires c in PageItems(anchors)
    ensures exists a :: a in anchors && AnchorItems(a) == [c]
  {
    FlatMapOrigin(anchors, AnchorItems, c);
    var a :| a in anchors && c in AnchorItems(a);
    assert AnchorItems(a) == [c];
  }

  /** ...and every selected anchor with a non-empty href gives one. */
  lemma AnchorsGiveItems(anchors: seq<Anchor>, k: nat)
    requires k < |anchors| && IsItemAnchor(anchors[k]) && anchors[k].href.value != []
    ensures Candidate(NormaliseHref(anchors[k].href.value), AnchorTitle(anchors[k])) in PageItems(anchors)
  {
    var c := Candidate(NormaliseHref(anchors[k].href.value), AnchorTitle(anchors[k]));
    assert AnchorItems(anchors[k]) == [c];
    FlatMapMember(anchors, AnchorItems, k, c);
  }

  /** `extractAuctionItemsFromPage`: one candidate per selected anchor with a
      truthy href, in document order. */
  method ExtractAuctionItemsFromPage(page: Document) returns (items: seq<Candidate>)
    ensures items == PageItems(page.anchors)
  {
    items := [];
    var anchors := page.anchors;
    for k := 0 to |anchors|
      invariant items == PageItems(anchors[..k])
    {
      var a := anchors[k];
      if IsItemAnchor(a) {
        var href := a.href.value;
        if href != [] {
          var url := NormaliseHref(href);
          var title := AnchorTitle(a);
          items := items + [Candidate(url, title)];
        }
      }
      FlatMapStep(anchors, AnchorItems, k);
    }
    assert anchors[..|anchors|] == anchors;
  }

  // ---------------------------------------------------------------------------
  // Keyword filter and de-duplication

  /** `allItems.filter(item => matchesKeyword(item.title, keyword))`. */
  function FilterMatching(items: seq<Candidate>, keyword: string): (r: seq<Candidate>)
    ensures forall c :: c in r <==> c in items && MatchesKeyword(c.title, keyword)
    ensures |r| <= |items|
  {
    if items == [] then []
    else (if MatchesKeyword(items[0].title, keyword) then [items[0]] else []) + FilterMatching(items[1..], keyword)
  }

  /** Filtering a concatenation filters each part and keeps the parts in
      order; with the one-element case of the definition this fixes the
      order of the kept candidates as the order of `items`. */
  lemma {:induction false} FilterMatchingAppend(a: seq<Candidate>, b: seq<Candidate>, keyword: string)
    ensures FilterMatching(a + b, keyword) == FilterMatching(a, keyword) + FilterMatching(b, keyword)
  {
    if a != [] {
      var head := if MatchesKeyword(a[0].title, keyword) then [a[0]] else [];
      AppendHeadTail(a, b);
      assert FilterMatching(a + b, keyword) == head + FilterMatching(a[1..] + b, keyword);
      assert FilterMatching(a, keyword) == head + FilterMatching(a[1..], keyword);
      var x, y := FilterMatching(a[1..], keyword), FilterMatching(b, keyword);
      FilterMatchingAppend(a[1..], b, keyword);
      assert head + (x + y) == (head + x) + y;
    } else {
      assert a + b == b;
    }
  }

  /** The filter is applied only when the keyword is truthy. */
  function KeywordFilter(items: seq<Candidate>, keyword: string): seq<Candidate> {
    if keyword != [] then FilterMatching(items, keyword) else items
  }

  /** A falsy or blank keyword filters nothing out. */
  lemma {:induction false} BlankKeywordKeepsAll(items: seq<Candidate>, keyword: string)
    requires AllSpace(keyword)
    ensures KeywordFilter(items, keyword) == items
  {
    if keyword != [] && items != [] {
      BlankKeywordKeepsAll(items[1..], keyword);
      assert items == [items[0]] + items[1..];
    }
  }

  function Urls(items: seq<Candidate>): (urls: seq<string>)
    ensures |urls| == |items| && forall k :: 0 <= k < |items| ==> urls[k] == items[k].url
  {
    seq(|items|, k requires 0 <= k < |items| => items[k].url)
  }

  predicate NoDuplicates<T(==)>(s: seq<T>) {
    forall i, j :: 0 <= i < j < |s| ==> s[i] != s[j]
  }

  /** The index of the first occurrence of `x` in `s`. */
  function FirstIndex<T(==)>(s: seq<T>, x: T): (k: nat)
    requires x in s
    ensures k < |s| && s[k] == x && forall j :: 0 <= j < k ==> s[j] != x
  {
    if s[0] == x then 0 else 1 + FirstIndex(s[1..], x)
  }

  /** `Array.from(new Set(s))`: the distinct elements of `s` in order of first
      occurrence. */
  function Dedup(s: seq<string>): seq<string> {
    if s == [] then []
    else
      var d := Dedup(s[..|s| - 1]);
      if s[|s| - 1] in d then d else d + [s[|s| - 1]]
  }

  /** Dropping the last element keeps the first occurrence of every element
      that remains. */
  lemma FirstIndexInInit<T>(s: seq<T>, y: T)
    requires s != [] && y in s[..|s| - 1]
    ensures FirstIndex(s, y) == FirstIndex(s[..|s| - 1], y)
  {
    var init := s[..|s| - 1];
    var k, k' := FirstIndex(init, y), FirstIndex(s, y);
    assert s[k] == init[k];
    assert forall j :: 0 <= j < k ==> s[j] == init[j];
  }

  /** The de-duplicated list has no repeats, holds exactly the elements of
      `s`, and keeps them in order of first occurrence. */
  lemma DedupSpec(s: seq<string>)
    ensures var r := Dedup(s);
      && NoDuplicates(r)
      && (forall x :: x in r <==> x in s)
      && (forall i, j :: 0 <= i < j < |r| ==> FirstIndex(s, r[i]) < FirstIndex(s, r[j]))
  {
    DedupNoDuplicates(s);
    DedupFirstOrder(s);
  }

  lemma {:induction false} DedupNoDuplicates(s: seq<string>)
    ensures NoDuplicates(Dedup(s))
  {
    if s != [] {
      DedupNoDuplicates(s[..|s| - 1]);
    }
  }

  lemma {:induction false} DedupMembers(s: seq<string>)
    ensures forall x :: x in Dedup(s) <==> x in s
  {
    if s != [] {
      var init := s[..|s| - 1];
      DedupMembers(init);
      assert s == init + [s[|s| - 1]];
    }
  }

  lemma {:induction false} DedupFirstOrder(s: seq<string>)
    ensures var r := Dedup(s);
      && (forall x :: x in r <==> x in s)
      && (forall i, j :: 0 <= i < j < |r| ==> FirstIndex(s, r[i]) < FirstIndex(s, r[j]))
  {
    DedupMembers(s);
    if s != [] {
      var init, x := s[..|s| - 1], s[|s| - 1];
      var d, r := Dedup(init), Dedup(s);
      DedupFirstOrder(init);
      forall i, j | 0 <= i < j < |r| ensures FirstIndex(s, r[i]) < FirstIndex(s, r[j]) {
        assert r[i] == d[i] && d[i] in init;
        FirstIndexInInit(s, r[i]);
        if j < |d| {
          assert r[j] == d[j] && d[j] in init;
          FirstIndexInInit(s, r[j]);
        } else {
          LastFirstOccurrence(s);
        }
      }
    }
  }

  /** An element that does not occur before the end first occurs at the end. */
  lemma LastFirstOccurrence<T>(s: seq<T>)
    requires s != [] && s[|s| - 1] !in s[..|s| - 1]
    ensures FirstIndex(s, s[|s| - 1]) == |s| - 1
  {
    var k := FirstIndex(s, s[|s| - 1]);
    assert forall q :: 0 <= q < |s| - 1 ==> s[q] == s[..|s| - 1][q];
  }

  // ---------------------------------------------------------------------------
  // The listing walk

  /** The address of listing page `page` of a seller. */
  function ListingUrl(sellerId: string, page: nat): string {
    BASE_URL + "/jp/show/rating?auc_user_id=" + sellerId + "&role=seller&apg=" + NatToString(page)
  }

  /** Distinct pages of one seller have distinct addresses. */
  lemma ListingUrlInjective(sellerId: string, p: nat, q: nat)
    requires ListingUrl(sellerId, p) == ListingUrl(sellerId, q)
    ensures p == q
  {
    var prefix := BASE_URL + "/jp/show/rating?auc_user_id=" + sellerId + "&role=seller&apg=";
    assert ListingUrl(sellerId, p)[|prefix|..] == NatToString(p);
    assert ListingUrl(sellerId, q)[|prefix|..] == NatToString(q);
    NatToStringInjective(p, q);
  }

  /** Listing page `page` of a seller, fetched with the default retry budget. */
  function FetchPage(web: Web, sellerId: string, page: nat): Result<Document, FetchError> {
    Fetch(web, ListingUrl(sellerId, page))
  }

  /** Where a walk over listing pages ended: the candidates gathered or the
      error that stopped it, and the pages requested, in order. */
  datatype Walk = Walk(result: Result<seq<Candidate>, FetchError>, requested: seq<nat>)

  /** Pages `page`..`total`, each fetched in turn and its candidates appended
      to `acc`, each request appended to `req`; the first failing fetch ends
      the walk with its error. */
  function WalkFrom(web: Web, sellerId: string, page: nat, total: nat, acc: seq<Candidate>, req: seq<nat>): Walk
    decreases total + 1 - page
  {
    if page > total then
      Walk(Success(acc), req)
    else
      match FetchPage(web, sellerId, page)
      case Failure(e) => Walk(Failure(e), req + [page])
      case Success(doc) => WalkFrom(web, sellerId, page + 1, total, acc + PageItems(doc.anchors), req + [page])
  }

  /** The whole walk of `fetchAuctionUrls`: page 1, which also gives the page
      count, then pages 2..total. */
  function WalkAll(web: Web, sellerId: string): Walk {
    match FetchPage(web, sellerId, 1)
    case Failure(e) => Walk(Failure(e), [1])
    case Success(first) => WalkFrom(web, sellerId, 2, ExtractTotalPages(first.bodyText), PageItems(first.anchors), [1])
  }

  /** What `fetchAuctionUrls` returns or throws for a seller: the walk's
      candidates through the keyword filter and the de-duplication, or the
      single harvesting error. */
  function Harvest(web: Web, sellerId: string, keyword: string): Result<seq<string>, string> {
    match WalkAll(web, sellerId).result
    case Failure(_) => Failure(HARVEST_FAILED)
    case Success(items) => Success(Dedup(Urls(KeywordFilter(items, keyword))))
  }

  /** A failed walk names the page that failed, and that page is the last
      one it requested. */
  lemma {:induction false} WalkFromFailingPage(web: Web, sellerId: string, page: nat, total: nat, acc: seq<Candidate>, req: seq<nat>) returns (p: nat)
    requires WalkFrom(web, sellerId, page, total, acc, req).result.Failure?
    ensures page <= p <= total && FetchPage(web, sellerId, p).Failure?
    ensures |WalkFrom(web, sellerId, page, total, acc, req).requested| == |req| + (p - page) + 1
    decreases total + 1 - page
  {
    if FetchPage(web, sellerId, page).Failure? {
      p := page;
    } else {
      p := WalkFromFailingPage(web, sellerId, page + 1, total, acc + PageItems(FetchPage(web, sellerId, page).value.anchors), req + [page]);
    }
  }

  /** A page that fails to fetch makes the whole walk fail. */
  lemma {:induction false} FailingPageFailsWalk(web: Web, sellerId: string, page: nat, total: nat, acc: seq<Candidate>, req: seq<nat>, p: nat)
    requires page <= p <= total && FetchPage(web, sellerId, p).Failure?
    ensures WalkFrom(web, sellerId, page, total, acc, req).result.Failure?
    decreases total + 1 - page
  {
    if p != page && FetchPage(web, sellerId, page).Success? {
      FailingPageFailsWalk(web, sellerId, page + 1, total, acc + PageItems(FetchPage(web, sellerId, page).value.anchors), req + [page], p);
    }
  }

  /** Harvesting fails, with the single message `fetchAuctionUrls` throws,
      exactly when page 1 or one of pages 2..total cannot be fetched: no
      partial list is ever returned. */
  lemma HarvestFailsIff(web: Web, sellerId: string, keyword: string)
    ensures Harvest(web, sellerId, keyword).Failure? ==> Harvest(web, sellerId, keyword).error == HARVEST_FAILED
    ensures Harvest(web, sellerId, keyword).Failure? <==>
            (FetchPage(web, sellerId, 1).Failure? ||
             exists p :: 2 <= p <= ExtractTotalPages(FetchPage(web, sellerId, 1).value.bodyText) && FetchPage(web, sellerId, p).Failure?)
  {
    if FetchPage(web, sellerId, 1).Success? {
      var total := ExtractTotalPages(FetchPage(web, sellerId, 1).value.bodyText);
      var acc := PageItems(FetchPage(web, sellerId, 1).value.anchors);
      if WalkFrom(web, sellerId, 2, total, acc, [1]).result.Failure? {
        var p := WalkFromFailingPage(web, sellerId, 2, total, acc, [1]);
      }
      if exists p :: 2 <= p <= total && FetchPage(web, sellerId, p).Failure? {
        var p :| 2 <= p <= total && FetchPage(web, sellerId, p).Failure?;
        FailingPageFailsWalk(web, sellerId, 2, total, acc, [1], p);
      }
    }
  }

  /** A URL is in the list of candidate URLs exactly when some candidate has it. */
  lemma UrlsMembership(items: seq<Candidate>, u: string)
    ensures u in Urls(items) <==> exists c :: c in items && c.url == u
  {
    if u in Urls(items) {
      var k :| 0 <= k < |items| && Urls(items)[k] == u;
      assert items[k] in items;
    }
    if exists c :: c in items && c.url == u {
      var c :| c in items && c.url == u;
      var k :| 0 <= k < |items| && items[k] == c;
      assert Urls(items)[k] == u;
    }
  }

  /** The harvested URLs are duplicate-free and are exactly the URLs of the
      candidates whose title matches a truthy keyword (all candidates for a
      falsy one), none with a query string, in the order in which each first
      occurs among the kept candidates. */
  lemma HarvestResult(web: Web, sellerId: string, keyword: string)
    requires WalkAll(web, sellerId).result.Success?
    ensures var items := WalkAll(web, sellerId).result.value;
            var urls := Harvest(web, sellerId, keyword).value;
            var kept := Urls(KeywordFilter(items, keyword));
      && NoDuplicates(urls)
      && (forall u :: u in urls <==> exists c :: c in items && c.url == u && (keyword == [] || MatchesKeyword(c.title, keyword)))
      && (forall u :: u in urls ==> '?' !in u)
      && (forall u :: u in urls <==> u in kept)
      && (forall i, j :: 0 <= i < j < |urls| ==> FirstIndex(kept, urls[i]) < FirstIndex(kept, urls[j]))
  {
    var items := WalkAll(web, sellerId).result.value;
    var kept := KeywordFilter(items, keyword);
    var urls := Harvest(web, sellerId, keyword).value;
    assert urls == Dedup(Urls(kept));
    DedupSpec(Urls(kept));
    assert forall c :: c in kept <==> c in items && (keyword == [] || MatchesKeyword(c.title, keyword));
    forall u ensures u in urls <==> exists c :: c in items && c.url == u && (keyword == [] || MatchesKeyword(c.title, keyword)) {
      UrlsMembership(kept, u);
    }
    WalkAllNoQuery(web, sellerId);
    forall u | u in urls ensures '?' !in u {
      UrlsMembership(kept, u);
    }
  }

  /** No candidate URL a walk gathers keeps a query string. */
  lemma WalkAllNoQuery(web: Web, sellerId: string)
    requires WalkAll(web, sellerId).result.Success?
    ensures forall c :: c in WalkAll(web, sellerId).result.value ==> '?' !in c.url
  {
    var first := FetchPage(web, sellerId, 1).value;
    PageItemsAbsolute(first.anchors);
    WalkFromNoQuery(web, sellerId, 2, ExtractTotalPages(first.bodyText), PageItems(first.anchors), [1]);
  }

  /** One step of the walk over a page that was fetched. */
  lemma WalkFromStep(web: Web, sellerId: string, page: nat, total: nat, acc: seq<Candidate>, req: seq<nat>)
    requires page <= total && FetchPage(web, sellerId, page).Success?
    ensures WalkFrom(web, sellerId, page, total, acc, req) ==
            WalkFrom(web, sellerId, page + 1, total, acc + PageItems(FetchPage(web, sellerId, page).value.anchors), req + [page])
  {
  }

  /** A walk ends at a page that fails to fetch... */
  lemma WalkFromStops(web: Web, sellerId: string, page: nat, total: nat, acc: seq<Candidate>, req: seq<nat>)
    requires page <= total && FetchPage(web, sellerId, page).Failure?
    ensures WalkFrom(web, sellerId, page, total, acc, req) == Walk(Failure(FetchPage(web, sellerId, page).error), req + [page])
  {
  }

  /** ...or once it has passed the last page. */
  lemma WalkFromDone(web: Web, sellerId: string, page: nat, total: nat, acc: seq<Candidate>, req: seq<nat>)
    requires page > total
    ensures WalkFrom(web, sellerId, page, total, acc, req) == Walk(Success(acc), req)
  {
  }

  lemma NoQueryAppend(acc: seq<Candidate>, items: seq<Candidate>)
    requires forall c :: c in acc ==> '?' !in c.url
    requires forall c :: c in items ==> '?' !in c.url
    ensures forall c :: c in acc + items ==> '?' !in c.url
  {
  }

  lemma {:induction false} WalkFromNoQuery(web: Web, sellerId: string, page: nat, total: nat, acc: seq<Candidate>, req: seq<nat>)
    requires forall c :: c in acc ==> '?' !in c.url
    requires WalkFrom(web, sellerId, page, total, acc, req).result.Success?
    ensures forall c :: c in WalkFrom(web, sellerId, page, total, acc, req).result.value ==> '?' !in c.url
    decreases total + 1 - page
  {
    if page <= total && FetchPage(web, sellerId, page).Success? {
      var items := PageItems(FetchPage(web, sellerId, page).value.anchors);
      WalkFromStep(web, sellerId, page, total, acc, req);
      PageItemsAbsolute(FetchPage(web, sellerId, page).value.anchors);
      NoQueryAppend(acc, items);
      WalkFromNoQuery(web, sellerId, page + 1, total, acc + items, req + [page]);
    }
  }

  /** The walk extends `req` by the consecutive pages `page`, `page + 1`, .... */
  lemma {:induction false} WalkFromRequestsInOrder(web: Web, sellerId: string, page: nat, total: nat, acc: seq<Candidate>, req: seq<nat>)
    ensures var w := WalkFrom(web, sellerId, page, total, acc, req);
      && req <= w.requested
      && forall k :: |req| <= k < |w.requested| ==> w.requested[k] == page + (k - |req|)
    decreases total + 1 - page
  {
    if page <= total && FetchPage(web, sellerId, page).Success? {
      WalkFromStep(web, sellerId, page, total, acc, req);
      WalkFromRequestsInOrder(web, sellerId, page + 1, total, acc + PageItems(FetchPage(web, sellerId, page).value.anchors), req + [page]);
    } else if page <= total {
      assert WalkFrom(web, sellerId, page, total, acc, req).requested == req + [page];
    }
  }

  /** Every page the walk requests before its last one was fetched. */
  lemma {:induction false} WalkFromFetchedBeforeLast(web: Web, sellerId: string, page: nat, total: nat, acc: seq<Candidate>, req: seq<nat>)
    ensures var w := WalkFrom(web, sellerId, page, total, acc, req);
      forall p :: page <= p < page + |w.requested| - |req| - 1 ==> FetchPage(web, sellerId, p).Success?
    decreases total + 1 - page
  {
    var fetched := FetchPage(web, sellerId, page);
    if page <= total && fetched.Success? {
      var acc', req' := acc + PageItems(fetched.value.anchors), req + [page];
      var w' := WalkFrom(web, sellerId, page + 1, total, acc', req');
      assert WalkFrom(web, sellerId, page, total, acc, req) == w';
      WalkFromFetchedBeforeLast(web, sellerId, page + 1, total, acc', req');
      forall p | page <= p < page + |w'.requested| - |req| - 1
        ensures FetchPage(web, sellerId, p).Success?
      {
        if p > page {
          assert page + 1 <= p < page + 1 + |w'.requested| - |req'| - 1;
        }
      }
    }
  }

  /** A walk that succeeds requested every page from `page` to `total`. */
  lemma {:induction false} WalkFromSuccessRequestsAll(web: Web, sellerId: string, page: nat, total: nat, acc: seq<Candidate>, req: seq<nat>)
    requires WalkFrom(web, sellerId, page, total, acc, req).result.Success?
    ensures |WalkFrom(web, sellerId, page, total, acc, req).requested| == |req| + if total < page then 0 else total + 1 - page
    decreases total + 1 - page
  {
    if page <= total {
      WalkFromSuccessRequestsAll(web, sellerId, page + 1, total, acc + PageItems(FetchPage(web, sellerId, page).value.anchors), req + [page]);
    }
  }

  /** `fetchAuctionUrls` requests pages 1, 2, ... in order, every one but the
      last successfully; on success it has requested every page the first page
      announced (at least one), and on failure the last page requested is the
      one that failed. */
  lemma RequestedCharacterised(web: Web, sellerId: string)
    ensures var w := WalkAll(web, sellerId);
      && w.requested != []
      && (forall k :: 0 <= k < |w.requested| ==> w.requested[k] == k + 1)
      && (forall p :: 1 <= p < |w.requested| ==> FetchPage(web, sellerId, p).Success?)
      && (w.result.Failure? ==> FetchPage(web, sellerId, |w.requested|).Failure?)
      && (w.result.Success? ==>
            var total := ExtractTotalPages(FetchPage(web, sellerId, 1).value.bodyText);
            |w.requested| == if total <= 1 then 1 else total)
  {
    if FetchPage(web, sellerId, 1).Success? {
      var total := ExtractTotalPages(FetchPage(web, sellerId, 1).value.bodyText);
      var acc := PageItems(FetchPage(web, sellerId, 1).value.anchors);
      WalkFromRequestsInOrder(web, sellerId, 2, total, acc, [1]);
      WalkFromFetchedBeforeLast(web, sellerId, 2, total, acc, [1]);
      var w := WalkFrom(web, sellerId, 2, total, acc, [1]);
      forall p | 1 <= p < |w.requested| ensures FetchPage(web, sellerId, p).Success? {
        if p != 1 {
          assert 2 <= p < 2 + |w.requested| - |[1]| - 1;
        }
      }
      if w.result.Success? {
        WalkFromSuccessRequestsAll(web, sellerId, 2, total, acc, [1]);
      } else {
        var p := WalkFromFailingPage(web, sellerId, 2, total, acc, [1]);
      }
    }
  }

  /** What the retry loop with the default budget yields for a listing page
      is that page's fetch result. */
  lemma RetryRunIsFetchPage(web: Web, sellerId: string, page: nat, result: Result<Document, FetchError>, attempts: nat)
    requires Run(result, attempts) == Retry(OutcomesOf(web, ListingUrl(sellerId, page)), DEFAULT_RETRIES)
    ensures result == FetchPage(web, sellerId, page)
  {
  }

  /** The loop of `fetchAuctionUrls` over pages 2..totalPages, each through
      the retry loop, appending each page's candidates to those of page 1. */
  method FetchRemainingPages(web: Web, sellerId: string, totalPages: nat, firstItems: seq<Candidate>) returns (walk: Walk)
    ensures walk == WalkFrom(web, sellerId, 2, totalPages, firstItems, [1])
  {
    ghost var target := WalkFrom(web, sellerId, 2, totalPages, firstItems, [1]);
    var allItems := firstItems;
    var requested := [1];
    var page: nat := 2;
    while page <= totalPages
      invariant 2 <= page && (page <= totalPages + 1 || page == 2)
      invariant target == WalkFrom(web, sellerId, page, totalPages, allItems, requested)
      decreases totalPages + 1 - page
    {
      var html, attempts, _ := FetchWithRetry(web, ListingUrl(sellerId, page), DEFAULT_RETRIES);
      RetryRunIsFetchPage(web, sellerId, page, html, attempts);
      if html.Failure? {
        WalkFromStops(web, sellerId, page, totalPages, allItems, requested);
        return Walk(Failure(html.error), requested + [page]);
      }
      var items := ExtractAuctionItemsFromPage(html.value);
      WalkFromStep(web, sellerId, page, totalPages, allItems, requested);
      allItems := allItems + items;
      requested := requested + [page];
      page := page + 1;
    }
    WalkFromDone(web, sellerId, page, totalPages, allItems, requested);
    walk := Walk(Success(allItems), requested);
  }

  /** `fetchAuctionUrls`: page 1, then pages 2..total in increasing order,
      each through the retry loop; then the keyword filter and the
      de-duplication. `requested` lists the pages in the order they were
      requested (see `RequestedCharacterised`); the pauses between them are
      not modelled. */
  method FetchAuctionUrls(web: Web, sellerId: string, keyword: string) returns (r: Result<seq<string>, string>, requested: seq<nat>)
    ensures r == Harvest(web, sellerId, keyword)
    ensures requested == WalkAll(web, sellerId).requested
  {
    var first, attempts, _ := FetchWithRetry(web, ListingUrl(sellerId, 1), DEFAULT_RETRIES);
    RetryRunIsFetchPage(web, sellerId, 1, first, attempts);
    if first.Failure? {
      return Failure(HARVEST_FAILED), [1];
    }
    var totalPages := ExtractTotalPages(first.value.bodyText);
    var firstItems := ExtractAuctionItemsFromPage(first.value);
    var walk := FetchRemainingPages(web, sellerId, totalPages, firstItems);
    requested := walk.requested;
    if walk.result.Failure? {
      return Failure(HARVEST_FAILED), requested;
    }
    var allItems := walk.result.value;
    var filtered := if keyword != [] then FilterMatching(allItems, keyword) else allItems;
    r := Success(Dedup(Urls(filtered)));
  }
}
