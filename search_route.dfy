/** The `POST` handler of app/api/search/route.ts: validation, then a stream
    of server-sent events reporting the harvest, the detail fetches and the
    final result. */
module SearchRoute {
  import opened Wrappers
  import opened JsText
  import opened Fetcher
  import opened AuctionTypes
  import Utils
  import Listing
  import Details

  /** Pause before each detail fetch, in milliseconds. */
  const RATE_LIMIT_MS: nat := 800

  const MISSING_SELLER_URL := "出品者URLが指定されていません"
  const INVALID_SELLER_URL := "無効な出品者URLです"
  const FETCHING_URLS := "商品URLリストを取得中..."
  const TOTAL_SUFFIX := "件の商品を取得します..."
  const SERVER_ERROR := "サーバーエラーが発生しました"

  /** The `statistics` member of the final payload: `null` in the early
      empty result, absent (`statistics || undefined`) when there are no
      prices, or the statistics. */
  datatype StatisticsField = NullStatistics | OmittedStatistics | Reported(stats: Statistics)

  datatype SearchResult = SearchResult(items: seq<AuctionItem>, totalCount: nat, statistics: StatisticsField)

  /** The payloads sent as `data:` lines. */
  datatype Event =
    | Status(message: string)
    | Total(total: nat, message: string)
    | Progress(current: nat, total: nat, percentage: int)
    | Complete(data: SearchResult)
    | Error(error: string, details: string)

  predicate IsTerminal(e: Event) {
    e.Complete? || e.Error?
  }

  /** A 400 response with a JSON error body, or the event stream. */
  datatype Response = BadRequest(error: string) | EventStream(events: seq<Event>)

  /** The stream's controller: what has been enqueued and whether it is
      closed. Enqueueing into or closing a closed stream throws. */
  class StreamController {
    var events: seq<Event>
    var closed: bool

    constructor ()
      ensures events == [] && !closed
    {
      events := [];
      closed := false;
    }

    method Enqueue(e: Event)
      requires !closed
      modifies this
      ensures events == old(events) + [e] && !closed
    {
      events := events + [e];
    }

    method Close()
      requires !closed
      modifies this
      ensures closed && events == old(events)
    {
      closed := true;
    }
  }

  // ---------------------------------------------------------------------------
  // The pieces of the protocol

  /** `limit && limit > 0 ? urls.slice(0, limit) : urls`. */
  function LimitUrls(urls: seq<string>, limit: Option<int>): (r: seq<string>)
    ensures r <= urls
    ensures limit.Some? && limit.value > 0 ==> |r| == Details.Min(limit.value, |urls|)
    ensures !(limit.Some? && limit.value > 0) ==> r == urls
  {
    if limit.Some? && limit.value > 0 && limit.value < |urls| then urls[..limit.value] else urls
  }

  /** `Math.round(done / total * 100)`, in integers. */
  function Percentage(done: nat, total: nat): int
    requires total > 0
  {
    RoundDiv(100 * done, total)
  }

  /** A percentage of work done lies in 0..100, is 100 once all is done,
      and never decreases as work is done. */
  lemma PercentageBounds(done: nat, done': nat, total: nat)
    requires 0 < total && done <= done' <= total
    ensures 0 <= Percentage(done, total) <= Percentage(done', total) <= 100
    ensures Percentage(total, total) == 100
  {
    RoundDivBetween(100 * done, total, 0, 100);
    RoundDivBetween(100 * done', total, 0, 100);
    RoundDivIsNearest(100 * done, total);
    RoundDivIsNearest(100 * done', total);
    var p, p' := Percentage(done, total), Percentage(done', total);
    if p' < p {
      MulMonotone(2 * total, p' + 1, p);
    }
    RoundDivBetween(100 * total, total, 100, 100);
  }

  function TotalMessage(n: nat): string {
    NatToString(n) + TOTAL_SUFFIX
  }

  /** The progress events for the first `i` of `n` detail fetches. */
  function ProgressEvents(i: nat, n: nat): (r: seq<Event>)
    requires n > 0
    ensures |r| == i && forall k :: 0 <= k < i ==> r[k] == Progress(k + 1, n, Percentage(k + 1, n))
  {
    seq(i, k requires 0 <= k < i => Progress(k + 1, n, Percentage(k + 1, n)))
  }

  /** `allItems.map(item => item.price)`. */
  function Prices(items: seq<AuctionItem>): (r: seq<int>)
    ensures |r| == |items| && forall k :: 0 <= k < |items| ==> r[k] == items[k].price
  {
    seq(|items|, k requires 0 <= k < |items| => items[k].price)
  }

  function StatisticsFieldOf(s: Option<Statistics>): StatisticsField {
    match s
    case None => OmittedStatistics
    case Some(st) => Reported(st)
  }

  /** `x` ends no later than `y`, under the time each `endTime` string
      denotes. */
  predicate NoLater(x: AuctionItem, y: AuctionItem, timeOf: string -> int) {
    timeOf(x.endTime) <= timeOf(y.endTime)
  }

  /** Ordered by end time, latest first. */
  predicate Descending(s: seq<AuctionItem>, timeOf: string -> int) {
    forall i, j :: 0 <= i < j < |s| ==> NoLater(s[j], s[i], timeOf)
  }

  /** The items whose details were found among the processed URLs, in URL
      order. */
  function Found(web: Web, urls: seq<string>): seq<AuctionItem> {
    Details.Present(Details.DetailResults(web, urls))
  }

  /** The event stream that follows a harvest's outcome. */
  predicate StreamFor(events: seq<Event>, harvest: Result<seq<string>, string>, web: Web, limit: Option<int>, timeOf: string -> int) {
    match harvest
    case Failure(msg) =>
      events == [Status(FETCHING_URLS), Error(SERVER_ERROR, msg)]
    case Success(urls) =>
      if urls == [] then
        events == [Status(FETCHING_URLS), Complete(SearchResult([], 0, NullStatistics))]
      else
        var limited := LimitUrls(urls, limit);
        var n := |limited|;
        var found := Found(web, limited);
        && n > 0
        && |events| == n + 3
        && events[..n + 2] == [Status(FETCHING_URLS), Total(n, TotalMessage(n))] + ProgressEvents(n, n)
        && events[n + 2].Complete?
        && var data := events[n + 2].data;
           && data.items == SortDesc(found, timeOf)
           && data.totalCount == |data.items|
           && data.statistics == StatisticsFieldOf(Utils.CalculateStatistics(Prices(found)))
  }

  /** The event stream of a run for a valid seller id. */
  predicate ExpectedEvents(events: seq<Event>, web: Web, sellerId: string, keyword: string, limit: Option<int>, timeOf: string -> int) {
    StreamFor(events, Listing.Harvest(web, sellerId, keyword), web, limit, timeOf)
  }

  // ---------------------------------------------------------------------------
  // The sort

  /** `x` placed into the latest-first list `t` after every item that ends
      no earlier than it and before those that end earlier: where a stable
      sort puts an item that comes after all of `t` in its input. */
  function InsertDesc(t: seq<AuctionItem>, x: AuctionItem, timeOf: string -> int): seq<AuctionItem> {
    if t == [] || NoLater(x, t[|t| - 1], timeOf) then t + [x]
    else InsertDesc(t[..|t| - 1], x, timeOf) + [t[|t| - 1]]
  }

  /** The order `allItems.sort((a, b) => time(b.endTime) - time(a.endTime))`
      gives: latest first, items with equal times in their input order
      (`Array.prototype.sort` is stable). */
  function SortDesc(s: seq<AuctionItem>, timeOf: string -> int): seq<AuctionItem> {
    if s == [] then [] else InsertDesc(SortDesc(s[..|s| - 1], timeOf), s[|s| - 1], timeOf)
  }

  /** The items of `s` that end at time `t`, in order. */
  function WithTime(s: seq<AuctionItem>, t: int, timeOf: string -> int): seq<AuctionItem> {
    if s == [] then []
    else WithTime(s[..|s| - 1], t, timeOf) + (if timeOf(s[|s| - 1].endTime) == t then [s[|s| - 1]] else [])
  }

  lemma {:induction false} InsertDescMultiset(t: seq<AuctionItem>, x: AuctionItem, timeOf: string -> int)
    ensures multiset(InsertDesc(t, x, timeOf)) == multiset(t) + multiset{x}
  {
    if !(t == [] || NoLater(x, t[|t| - 1], timeOf)) {
      InsertDescMultiset(t[..|t| - 1], x, timeOf);
      assert t == t[..|t| - 1] + [t[|t| - 1]];
    }
  }

  /** Inserting into a latest-first list keeps it latest first. */
  lemma {:induction false} InsertDescDescending(t: seq<AuctionItem>, x: AuctionItem, timeOf: string -> int)
    requires Descending(t, timeOf)
    ensures Descending(InsertDesc(t, x, timeOf), timeOf)
  {
    if !(t == [] || NoLater(x, t[|t| - 1], timeOf)) {
      var init, last := t[..|t| - 1], t[|t| - 1];
      var r := InsertDesc(init, x, timeOf);
      InsertDescDescending(init, x, timeOf);
      InsertDescMultiset(init, x, timeOf);
      forall i | 0 <= i < |r| ensures NoLater(last, r[i], timeOf) {
        assert r[i] in multiset(r);
        if r[i] != x {
          assert r[i] in init;
        }
      }
    }
  }

  /** Inserting `x` adds it after the items of its own time already there. */
  lemma {:induction false} InsertDescWithTime(u: seq<AuctionItem>, x: AuctionItem, t: int, timeOf: string -> int)
    ensures WithTime(InsertDesc(u, x, timeOf), t, timeOf) ==
            WithTime(u, t, timeOf) + (if timeOf(x.endTime) == t then [x] else [])
  {
    if u == [] || NoLater(x, u[|u| - 1], timeOf) {
      assert (u + [x])[..|u|] == u;
    } else {
      var init, last := u[..|u| - 1], u[|u| - 1];
      var r := InsertDesc(init, x, timeOf);
      var ofX := if timeOf(x.endTime) == t then [x] else [];
      var ofLast := if timeOf(last.endTime) == t then [last] else [];
      InsertDescWithTime(init, x, t, timeOf);
      assert (r + [last])[..|r|] == r;
      assert WithTime(r + [last], t, timeOf) == WithTime(init, t, timeOf) + ofX + ofLast;
      assert InsertDesc(u, x, timeOf) == r + [last];
      assert WithTime(u, t, timeOf) == WithTime(init, t, timeOf) + ofLast;
      // x ends later than last, so at most one of them ends at t
      assert ofX + ofLast == ofLast + ofX by {
        assert ofX == [] || ofLast == [];
      }
    }
  }

  /** `SortDesc` is latest first and a permutation of its input. */
  lemma SortDescSorts(s: seq<AuctionItem>, timeOf: string -> int)
    ensures Descending(SortDesc(s, timeOf), timeOf)
    ensures multiset(SortDesc(s, timeOf)) == multiset(s)
  {
    SortDescDescending(s, timeOf);
    SortDescMultiset(s, timeOf);
  }

  lemma {:induction false} SortDescDescending(s: seq<AuctionItem>, timeOf: string -> int)
    ensures Descending(SortDesc(s, timeOf), timeOf)
  {
    if s != [] {
      SortDescDescending(s[..|s| - 1], timeOf);
      InsertDescDescending(SortDesc(s[..|s| - 1], timeOf), s[|s| - 1], timeOf);
    }
  }

  lemma {:induction false} SortDescMultiset(s: seq<AuctionItem>, timeOf: string -> int)
    ensures multiset(SortDesc(s, timeOf)) == multiset(s)
  {
    if s != [] {
      var init := s[..|s| - 1];
      SortDescMultiset(init, timeOf);
      InsertDescMultiset(SortDesc(init, timeOf), s[|s| - 1], timeOf);
      assert s == init + [s[|s| - 1]];
    }
  }

  /** `SortDesc` is stable: the items of any one end time come out in their
      input order. */
  lemma {:induction false} SortDescStable(s: seq<AuctionItem>, t: int, timeOf: string -> int)
    ensures WithTime(SortDesc(s, timeOf), t, timeOf) == WithTime(s, t, timeOf)
  {
    if s != [] {
      var init := s[..|s| - 1];
      SortDescStable(init, t, timeOf);
      InsertDescWithTime(SortDesc(init, timeOf), s[|s| - 1], t, timeOf);
    }
  }

  /** The sort, in place, as an insertion sort. */
  method SortByEndTimeDescending(a: array<AuctionItem>, timeOf: string -> int)
    modifies a
    ensures a[..] == SortDesc(old(a[..]), timeOf)
  {
    ghost var s := a[..];
    for i := 0 to a.Length
      invariant a[..i] == SortDesc(s[..i], timeOf)
      invariant a[i..] == s[i..]
    {
      assert s[..i + 1][..i] == s[..i];
      InsertBackward(a, i, timeOf);
    }
    assert s[..a.Length] == s;
  }

  /** Moves `a[i]` back past the items before it that end earlier, which
      inserts it into the first i items. */
  method InsertBackward(a: array<AuctionItem>, i: nat, timeOf: string -> int)
    requires i < a.Length
    modifies a
    ensures a[..i + 1] == InsertDesc(old(a[..i]), old(a[i]), timeOf)
    ensures a[i + 1..] == old(a[i + 1..])
  {
    ghost var t, x, rest := a[..i], a[i], a[i + 1..];
    var j := i;
    while j > 0 && !NoLater(a[j], a[j - 1], timeOf)
      invariant 0 <= j <= i
      invariant a[j] == x
      invariant InsertDesc(a[..j], x, timeOf) + a[j + 1..i + 1] == InsertDesc(t, x, timeOf)
      invariant a[i + 1..] == rest
    {
      ghost var s := a[..];
      a[j - 1], a[j] := a[j], a[j - 1];
      assert a[..] == s[j - 1 := s[j]][j := s[j - 1]];
      InsertStep(s, i, j, x, timeOf);
      j := j - 1;
    }
    InsertFinish(a[..], i, j, x, timeOf);
  }

  /** Swapping the inserted item with an earlier-ending predecessor leaves
      what remains of the insertion unchanged. */
  lemma InsertStep(s: seq<AuctionItem>, i: nat, j: nat, x: AuctionItem, timeOf: string -> int)
    requires 0 < j <= i < |s| && s[j] == x && !NoLater(x, s[j - 1], timeOf)
    ensures var s' := s[j - 1 := s[j]][j := s[j - 1]];
      InsertDesc(s'[..j - 1], x, timeOf) + s'[j..i + 1] == InsertDesc(s[..j], x, timeOf) + s[j + 1..i + 1]
  {
    var s' := s[j - 1 := s[j]][j := s[j - 1]];
    assert s[..j][..j - 1] == s[..j - 1] == s'[..j - 1];
    assert s'[j..i + 1] == [s[j - 1]] + s[j + 1..i + 1];
  }

  /** Once the predecessor ends no earlier, or there is none, the insertion
      is complete in place. */
  lemma InsertFinish(s: seq<AuctionItem>, i: nat, j: nat, x: AuctionItem, timeOf: string -> int)
    requires j <= i < |s| && s[j] == x && (j == 0 || NoLater(x, s[j - 1], timeOf))
    ensures InsertDesc(s[..j], x, timeOf) + s[j + 1..i + 1] == s[..i + 1]
  {
    assert s[..i + 1] == s[..j] + [x] + s[j + 1..i + 1];
  }

  /** The items copied into a fresh array, sorted there and read back. */
  method SortedByEndTime(items: seq<AuctionItem>, timeOf: string -> int) returns (sorted: seq<AuctionItem>)
    ensures sorted == SortDesc(items, timeOf)
  {
    var a := new AuctionItem[|items|](k requires 0 <= k < |items| => items[k]);
    assert a[..] == items;
    SortByEndTimeDescending(a, timeOf);
    sorted := a[..];
  }

  // ---------------------------------------------------------------------------
  // The handler

  /** The detail loop: one fetch per URL in order, each followed by its
      progress event; found items are kept in URL order. The pause before
      each fetch is not modelled. */
  method FetchDetailsWithProgress(c: StreamController, web: Web, limited: seq<string>) returns (allItems: seq<AuctionItem>)
    requires !c.closed && |limited| > 0
    modifies c
    ensures !c.closed
    ensures c.events == old(c.events) + ProgressEvents(|limited|, |limited|)
    ensures allItems == Found(web, limited)
  {
    var n := |limited|;
    allItems := [];
    for i := 0 to n
      invariant !c.closed
      invariant c.events == old(c.events) + ProgressEvents(i, n)
      invariant allItems == Found(web, limited[..i])
    {
      var item := Details.FetchAuctionDetails(web, limited[i]);
      FoundStep(web, limited, i);
      if item.Some? {
        allItems := allItems + [item.value];
      }
      c.Enqueue(Progress(i + 1, n, Percentage(i + 1, n)));
      ProgressEventsStep(i, n);
    }
    assert limited[..n] == limited;
  }

  lemma ProgressEventsStep(i: nat, n: nat)
    requires n > 0
    ensures ProgressEvents(i + 1, n) == ProgressEvents(i, n) + [Progress(i + 1, n, Percentage(i + 1, n))]
  {
  }

  /** One more URL adds its detail, when found, at the end. */
  lemma FoundStep(web: Web, urls: seq<string>, i: nat)
    requires i < |urls|
    ensures Found(web, urls[..i + 1]) ==
              Found(web, urls[..i]) + (match Details.DetailOf(web, urls[i]) case Some(x) => [x] case None => [])
  {
    assert urls[..i + 1] == urls[..i] + [urls[i]];
    Details.DetailResultsAppend(web, urls[..i], [urls[i]]);
    Details.PresentAppend(Details.DetailResults(web, urls[..i]), Details.DetailResults(web, [urls[i]]));
    assert Details.Present(Details.DetailResults(web, [urls[i]])) ==
           (match Details.DetailOf(web, urls[i]) case Some(x) => [x] case None => []) by {
      assert Details.DetailResults(web, [urls[i]])[..0] == [];
    }
  }

  /** The stream's `start`: the status event and the harvest, then the
      rest of the run. */
  method Start(c: StreamController, web: Web, sellerId: string, keyword: string, limit: Option<int>, timeOf: string -> int)
    requires c.events == [] && !c.closed
    modifies c
    ensures c.closed
    ensures ExpectedEvents(c.events, web, sellerId, keyword, limit, timeOf)
  {
    c.Enqueue(Status(FETCHING_URLS));
    var harvest, _ := Listing.FetchAuctionUrls(web, sellerId, keyword);
    Respond(c, harvest, web, limit, timeOf);
  }

  /** What follows the harvest inside the `try`, and the `catch` that turns
      the harvest's failure into the error event. */
  method Respond(c: StreamController, harvest: Result<seq<string>, string>, web: Web, limit: Option<int>, timeOf: string -> int)
    requires c.events == [Status(FETCHING_URLS)] && !c.closed
    modifies c
    ensures c.closed
    ensures StreamFor(c.events, harvest, web, limit, timeOf)
  {
    if harvest.Failure? {
      c.Enqueue(Error(SERVER_ERROR, harvest.error));
      c.Close();
      return;
    }
    var auctionUrls := harvest.value;
    if |auctionUrls| == 0 {
      c.Enqueue(Complete(SearchResult([], 0, NullStatistics)));
      c.Close();
      return;
    }
    Report(c, auctionUrls, web, limit, timeOf);
  }

  /** The run over a non-empty harvest: the total, the detail loop with its
      progress, then the statistics and the sorted items. */
  method Report(c: StreamController, auctionUrls: seq<string>, web: Web, limit: Option<int>, timeOf: string -> int)
    requires c.events == [Status(FETCHING_URLS)] && !c.closed && auctionUrls != []
    modifies c
    ensures c.closed
    ensures StreamFor(c.events, Success(auctionUrls), web, limit, timeOf)
  {
    var limited := LimitUrls(auctionUrls, limit);
    var n := |limited|;
    c.Enqueue(Total(n, TotalMessage(n)));
    ghost var opening := c.events;
    assert opening == [Status(FETCHING_URLS), Total(n, TotalMessage(n))];
    var allItems := FetchDetailsWithProgress(c, web, limited);
    var statistics := Utils.CalculateStatistics(Prices(allItems));
    var sorted := SortedByEndTime(allItems, timeOf);
    var complete := Complete(SearchResult(sorted, |sorted|, StatisticsFieldOf(statistics)));
    c.Enqueue(complete);
    c.Close();
    assert c.events == opening + ProgressEvents(n, n) + [complete];
    StreamOfRun(c.events, auctionUrls, web, limit, timeOf, sorted);
  }

  /** A run over a non-empty harvest: the status, the total, one progress
      event per URL and the sorted items with the statistics of the found
      ones make up the stream the harvest calls for. */
  lemma StreamOfRun(events: seq<Event>, urls: seq<string>, web: Web, limit: Option<int>, timeOf: string -> int, sorted: seq<AuctionItem>)
    requires urls != []
    requires var limited := LimitUrls(urls, limit);
             var n := |limited|;
             var found := Found(web, limited);
             && sorted == SortDesc(found, timeOf)
             && events == [Status(FETCHING_URLS), Total(n, TotalMessage(n))] + ProgressEvents(n, n) +
                          [Complete(SearchResult(sorted, |sorted|, StatisticsFieldOf(Utils.CalculateStatistics(Prices(found)))))]
    ensures StreamFor(events, Success(urls), web, limit, timeOf)
  {
    var n := |LimitUrls(urls, limit)|;
    assert events[..n + 2] == [Status(FETCHING_URLS), Total(n, TotalMessage(n))] + ProgressEvents(n, n);
  }

  /** `POST`: the two validation failures answer 400 before any stream
      exists; otherwise the event stream of the run. `parsedSellerUrl` is
      what the URL parser makes of `request.sellerUrl`. */
  method Post(request: SearchRequest, parsedSellerUrl: Option<Utils.UrlRecord>, web: Web, timeOf: string -> int) returns (response: Response)
    ensures request.sellerUrl == [] ==> response == BadRequest(MISSING_SELLER_URL)
    ensures request.sellerUrl != [] && Utils.ExtractSellerIdFromUrl(parsedSellerUrl).None? ==>
              response == BadRequest(INVALID_SELLER_URL)
    ensures request.sellerUrl != [] && Utils.ExtractSellerIdFromUrl(parsedSellerUrl).Some? ==>
              response.EventStream? &&
              ExpectedEvents(response.events, web, Utils.ExtractSellerIdFromUrl(parsedSellerUrl).value,
                             request.keyword, request.limit, timeOf)
  {
    if request.sellerUrl == [] {
      return BadRequest(MISSING_SELLER_URL);
    }
    var sellerId := Utils.ExtractSellerIdFromUrl(parsedSellerUrl);
    if sellerId.None? {
      return BadRequest(INVALID_SELLER_URL);
    }
    var c := new StreamController();
    Start(c, web, sellerId.value, request.keyword, request.limit, timeOf);
    response := EventStream(c.events);
  }

  // ---------------------------------------------------------------------------
  // Properties of the stream

  /** Every stream opens with the status event and ends with exactly one
      terminal event, `complete` or `error`; the error event appears exactly
      when the harvest fails and carries the harvest's message. */
  lemma OneTerminalEvent(events: seq<Event>, harvest: Result<seq<string>, string>, web: Web, limit: Option<int>, timeOf: string -> int)
    requires StreamFor(events, harvest, web, limit, timeOf)
    ensures |events| >= 2 && events[0] == Status(FETCHING_URLS)
    ensures IsTerminal(events[|events| - 1])
    ensures forall k :: 0 <= k < |events| - 1 ==> !IsTerminal(events[k])
    ensures events[|events| - 1].Error? <==> harvest.Failure?
    ensures harvest.Failure? ==> events[|events| - 1] == Error(SERVER_ERROR, harvest.error)
  {
    if harvest.Success? && harvest.value != [] {
      RunPrefixNotTerminal(events, |LimitUrls(harvest.value, limit)|);
    }
  }

  /** The status, total and progress events that open a run are none of
      them terminal. */
  lemma RunPrefixNotTerminal(events: seq<Event>, n: nat)
    requires n > 0 && |events| == n + 3
    requires events[..n + 2] == [Status(FETCHING_URLS), Total(n, TotalMessage(n))] + ProgressEvents(n, n)
    ensures events[0] == Status(FETCHING_URLS)
    ensures forall k :: 0 <= k < n + 2 ==> !IsTerminal(events[k])
  {
    forall k | 0 <= k < n + 2 ensures !IsTerminal(events[k]) {
      assert events[k] == events[..n + 2][k];
    }
    assert events[0] == events[..n + 2][0];
  }

  /** A run's error event always reports the harvest failure. */
  lemma RunErrorIsHarvestFailure(events: seq<Event>, web: Web, sellerId: string, keyword: string, limit: Option<int>, timeOf: string -> int)
    requires ExpectedEvents(events, web, sellerId, keyword, limit, timeOf)
    requires events[|events| - 1].Error?
    ensures events[|events| - 1] == Error(SERVER_ERROR, Listing.HARVEST_FAILED)
  {
    Listing.HarvestFailsIff(web, sellerId, keyword);
    OneTerminalEvent(events, Listing.Harvest(web, sellerId, keyword), web, limit, timeOf);
  }

  /** After the total, the stream lists one progress event per processed
      URL: `current` counts 1..n against the constant total n (see
      `ProgressEvents`). */
  lemma ProgressCountsUp(events: seq<Event>, harvest: Result<seq<string>, string>, web: Web, limit: Option<int>, timeOf: string -> int)
    requires StreamFor(events, harvest, web, limit, timeOf)
    requires harvest.Success? && harvest.value != []
    ensures var n := |LimitUrls(harvest.value, limit)|;
      && events[1] == Total(n, TotalMessage(n))
      && events[2..n + 2] == ProgressEvents(n, n)
  {
    var n := |LimitUrls(harvest.value, limit)|;
    assert events[1] == events[..n + 2][1];
    assert events[2..n + 2] == events[..n + 2][2..];
  }

  /** The percentages of the progress events stay in 0..100, never
      decrease, and reach 100 on the last one. */
  lemma ProgressPercentages(n: nat)
    requires n > 0
    ensures forall k :: 0 <= k < n ==> 0 <= ProgressEvents(n, n)[k].percentage <= 100
    ensures forall k :: 0 <= k < n - 1 ==> ProgressEvents(n, n)[k].percentage <= ProgressEvents(n, n)[k + 1].percentage
    ensures ProgressEvents(n, n)[n - 1].percentage == 100
  {
    var ps := ProgressEvents(n, n);
    forall k | 0 <= k < n
      ensures 0 <= ps[k].percentage <= 100
      ensures k < n - 1 ==> ps[k].percentage <= ps[k + 1].percentage
    {
      PercentageBounds(k + 1, if k < n - 1 then k + 2 else k + 1, n);
    }
    PercentageBounds(n, n, n);
  }

  /** The limit keeps the first `min(limit, n)` URLs when it is positive and
      all of them otherwise; a non-empty harvest always leaves work to do. */
  lemma LimitKeepsPrefix(urls: seq<string>, limit: Option<int>)
    requires urls != []
    ensures LimitUrls(urls, limit) == urls[..|LimitUrls(urls, limit)|]
    ensures LimitUrls(urls, limit) != []
  {
  }

  lemma {:induction false} PricesAppend(a: seq<AuctionItem>, b: seq<AuctionItem>)
    ensures Prices(a + b) == Prices(a) + Prices(b)
  {
  }

  /** Taking the item at `k` out takes its price out of the prices. */
  lemma PricesRemove(b: seq<AuctionItem>, k: nat)
    requires k < |b|
    ensures multiset(Prices(b)) == multiset(Prices(b[..k] + b[k + 1..])) + multiset{b[k].price}
  {
    var l, r := Prices(b[..k]), Prices(b[k + 1..]);
    assert Prices(b) == l + [b[k].price] + r;
    PricesAppend(b[..k], b[k + 1..]);
    assert multiset(l + [b[k].price] + r) == multiset(l) + multiset{b[k].price} + multiset(r);
  }

  lemma PricesRemoveFirst(a: seq<AuctionItem>)
    requires a != []
    ensures multiset(Prices(a)) == multiset(Prices(a[1..])) + multiset{a[0].price}
  {
    PricesRemove(a, 0);
    assert a[..0] + a[1..] == a[1..];
  }

  /** Reordering items reorders their prices. */
  lemma {:induction false} PricesPermutation(a: seq<AuctionItem>, b: seq<AuctionItem>)
    requires multiset(a) == multiset(b)
    ensures multiset(Prices(a)) == multiset(Prices(b))
    decreases |a|
  {
    if a == [] {
      assert |b| == |multiset(b)| == 0;
    } else {
      assert a[0] in multiset(b);
      var k :| 0 <= k < |b| && b[k] == a[0];
      var rest := b[..k] + b[k + 1..];
      assert multiset(a[1..]) == multiset(rest) by {
        Utils.RemoveMatching(a, b, k);
      }
      assert multiset(Prices(a[1..])) == multiset(Prices(rest)) by {
        PricesPermutation(a[1..], rest);
      }
      PricesRemoveFirst(a);
      assert multiset(Prices(b)) == multiset(Prices(rest)) + multiset{a[0].price} by {
        PricesRemove(b, k);
      }
    }
  }

  /** The final payload describes exactly the items it returns: the count is
      their number, the statistics are those of their prices, and they are
      latest first. Each of them is the detail of one processed URL. */
  lemma CompleteDescribesItems(events: seq<Event>, harvest: Result<seq<string>, string>, web: Web, limit: Option<int>, timeOf: string -> int)
    requires StreamFor(events, harvest, web, limit, timeOf)
    requires events[|events| - 1].Complete?
    ensures var data := events[|events| - 1].data;
      && data.totalCount == |data.items|
      && Descending(data.items, timeOf)
      && (data.items != [] ==> data.statistics == Reported(Utils.CalculateStatistics(Prices(data.items)).value))
      && forall x :: x in data.items ==> Details.DetailOf(web, x.url) == Some(x)
  {
    if harvest.Success? && harvest.value != [] {
      var limited := LimitUrls(harvest.value, limit);
      var found := Found(web, limited);
      var data := events[|events| - 1].data;
      SortDescSorts(found, timeOf);
      PricesPermutation(data.items, found);
      Utils.StatisticsPermutation(Prices(data.items), Prices(found));
      forall x | x in data.items ensures Details.DetailOf(web, x.url) == Some(x) {
        assert x in multiset(found);
        Details.BatchItemsComeFromUrls(web, limited, x);
      }
    }
  }
}
