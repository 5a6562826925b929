# Yahoo! Auctions sold-price checker — a Dafny model

This project models the engine of a small web service that reports a seller's closed-auction prices on Yahoo! Auctions Japan. The service does four things:

- **Harvest.** It walks the seller's rating pages and gathers the auction links, each with a title.
- **Filter and de-duplicate.** It keeps the titles that match a keyword and removes repeated URLs.
- **Extract.** It fetches each auction's detail page and pulls the sale record out of the page's inline scripts.
- **Report.** It sends the progress as a stream of events and ends with the records, newest first, plus price statistics.

The model covers three files:

- `lib/utils.ts`: seller-id extraction, keyword matching and statistics.
- `lib/scraper.ts`: the retrying fetcher, the page-count and link extraction, the listing walk, the detail extraction and the chunked batch fetch.
- `app/api/search/route.ts`: the POST handler with its event stream.

## Modules

Pure code is modelled as functions with lemmas. Loops are methods proved against those functions. The stream controller, which the handler mutates, is a class.

| module | models |
|---|---|
| `Wrappers` | `Option` and `Result` |
| `AuctionTypes` | the records of `types/auction.ts` |
| `Dom` | a parsed page: body text, anchors, inline scripts with what their regular expressions and `JSON.parse` yield, and the `#__NEXT_DATA__` element |
| `JsText` | the JavaScript string built-ins the code relies on: `trim`, `toLowerCase`, `includes`, `split(...)[0]`, `split('/').pop()`, `String(n)` and `Math.round` of a quotient |
| `Seqs` | concatenation of per-element lists, and its laws |
| `Utils` | `lib/utils.ts` |
| `Fetcher` | `fetchWithRetry` |
| `Listing` | `extractTotalPages`, `extractAuctionItemsFromPage` and `fetchAuctionUrls` |
| `Details` | `extractJsonData`, `fetchAuctionDetails` and `fetchMultipleAuctionDetails` |
| `SearchRoute` | `POST`, its stream controller and its events |

### The outside world

The network is a map from URL to the outcomes that successive attempts on that URL meet: a response with a status and a parsed page, or a network failure. Every `fetchWithRetry` call replays that list from its start. An attempt past the end of the list, or on an unknown URL, is a network failure.

Three things the program takes from its runtime are parameters of the model:

- the `URL` parser's result for the seller URL (`None` when the parser throws);
- the time `new Date(endTime).getTime()` gives for each `endTime` string;
- the network.

### Behaviour of the code worth knowing

- **The status check never fires.** `fetchAuctionDetails` drops a record whose status is not "closed" (lib/scraper.ts:87-90). But every extraction strategy sets the status to `'closed'` itself (lib/scraper.ts:178, 202, 227), so the check never rejects anything. `Details.ExtractedAlwaysClosed` and `Details.DetailNoneIff` state this.
- **Prices can be negative.** The price is a plain `number` (types/auction.ts:11), and `parseInt(item.price) || 0` (lib/scraper.ts:176) keeps a negative number. The model's price is an `int`.
- **Listing failures lose their cause.** The `catch` of `fetchAuctionUrls` replaces every failure with one fixed message (lib/scraper.ts:59-62). The route sends that message as the error event's `details` (app/api/search/route.ts:110-121).
- **The empty-result statistics are `null`.** `statistics` is an optional member of the search result (types/auction.ts:21). The early empty result sends `statistics: null` (app/api/search/route.ts:50). The final result sends `statistics || undefined` (app/api/search/route.ts:105), which omits the member. `SearchRoute.StatisticsField` keeps the two apart.
- **The backoff is linear.** The pause before retry i + 1 is `1000 * (i + 1)` ms (lib/scraper.ts:344), although the comment on that line calls it exponential.
- **The route fetches details one at a time.** The route does not call `fetchMultipleAuctionDetails` (lib/scraper.ts:110-148). It fetches each detail in turn with its own progress event (app/api/search/route.ts:69-86). Both are modelled.
- **The third strategy is reached too early.** It reads the page's `#__NEXT_DATA__` element inside the loop over the inline scripts (lib/scraper.ts:211-234). So when the element holds an item, no script after the first is ever looked at (`Details.ElementShadowsLaterScripts`). With no inline script at all, the third strategy is never tried; on a real page that case hardly arises, since the `#__NEXT_DATA__` element is itself normally an inline script.
- **The host check is loose.** It is a substring test on the host name (lib/utils.ts:9), not a suffix test.
- **The `href` test is always true.** The selector `a[href*="/jp/auction/"]` (lib/scraper.ts:251) already guarantees a non-empty `href`, so the `if (href)` check at lib/scraper.ts:253 never fails.
- **Statistics come from fetch order.** The statistics are computed on the items in fetch order, before the sort (app/api/search/route.ts:91-97). `SearchRoute.CompleteDescribesItems` shows this does not matter: they equal the statistics of the returned list.

## Model

| member | source | states |
|---|---|---|
| Utils.SearchParam | lib/utils.ts:14 | `searchParams.get`: the value of the first pair with the name; `None` exactly when no pair has that name |
| Utils.ExtractSellerIdFromUrl | lib/utils.ts:4-25 | an id is returned only for a parsed URL whose host contains the auction domain; it is the trimmed `auc_user_id` value, non-empty with no whitespace at either end; on a matching host it is missing exactly when the parameter is absent or blank |
| Utils.SellerIdRoundTrip | lib/utils.ts:4-25 | a trimmed id placed as the first `auc_user_id` parameter of an auction-domain URL is extracted unchanged |
| Utils.IsValidSellerUrl | lib/utils.ts:30-32 | valid exactly when an id is extracted, i.e. when the host matches and the parameter is present and not blank |
| Utils.MatchesKeyword | lib/utils.ts:37-46 | a blank keyword matches every title; otherwise it matches exactly when the lower-cased, trimmed keyword occurs in the lower-cased title |
| Utils.MatchesKeywordIgnoresCase | lib/utils.ts:42-45 | lower-casing the title or the keyword beforehand changes no answer |
| Utils.MatchesKeywordInfix | lib/utils.ts:37-46 | any title that contains the normalised keyword matches it |
| Utils.LowerIdempotent | lib/utils.ts:42-43 | lower-casing twice is lower-casing once |
| Utils.Max | lib/utils.ts:69 | `Math.max(...prices)` is one of the prices and no price exceeds it |
| Utils.Min | lib/utils.ts:70 | `Math.min(...prices)` is one of the prices and no price is below it |
| Utils.CalculateStatistics | lib/utils.ts:58-73 | `null` exactly for no prices; otherwise max and min are prices bounding all of them, the average is the sum divided by the count, rounded half up, and lies between min and max |
| Utils.Sum | lib/utils.ts:67 | definition: the `reduce` that adds the prices; `Utils.SumBounds` and `Utils.SumPermutation` state its properties |
| Utils.SumBounds | lib/utils.ts:67 | n prices between lo and hi sum to between n·lo and n·hi |
| Utils.SumPermutation | lib/utils.ts:67 | the sum of prices does not depend on their order |
| Utils.StatisticsPermutation | lib/utils.ts:58-73 | the statistics of a list of prices do not depend on its order |
| Utils.StatisticsExample | lib/utils.ts:58-73 | prices 10, 20, 30 give average 20, max 30, min 10 |
| JsText.TrimStart | lib/utils.ts:20 | the result is a suffix of the input, what was removed is all whitespace, and the result does not start with whitespace |
| JsText.TrimEnd | lib/utils.ts:20 | the result is a prefix of the input, what was removed is all whitespace, and the result does not end with whitespace |
| JsText.Trim | lib/utils.ts:16-20 | the result is a slice of the input with only whitespace before and after it, has no whitespace at either end, and is empty exactly when the input is all whitespace |
| JsText.TrimOfTrimmed | lib/utils.ts:16-20 | a string with no whitespace at its ends is its own trim |
| JsText.ToLower | lib/utils.ts:42-43 | definition: `toLowerCase` applied character by character; `Utils.LowerIdempotent` and `Utils.MatchesKeywordIgnoresCase` state its properties |
| JsText.Contains | lib/utils.ts:9 | `includes` holds exactly when the needle occurs at some position |
| JsText.DecimalValue | lib/scraper.ts:289 | definition: `parseInt(d, 10)` of a digit run, read most significant digit first; the page-count lemmas rely on it |
| JsText.NatToString | lib/scraper.ts:39 | definition: `String(n)`; `JsText.NatToStringSpells` and `JsText.NatToStringInjective` state its properties |
| JsText.NatToStringSpells | lib/scraper.ts:39 | the page number in a listing URL is spelled with digits only, no leading zero, and reads back as the number |
| JsText.NatToStringInjective | lib/scraper.ts:39 | different page numbers are spelled differently |
| JsText.BeforeFirst | lib/scraper.ts:258 | `split(c)[0]` is a prefix without `c`, ending just before the first `c` when there is one |
| JsText.LastSegment | lib/scraper.ts:92 | `split('/').pop()` contains no '/' |
| JsText.LastSegmentIsSuffix | lib/scraper.ts:92 | `split('/').pop()` is the suffix after the last '/', or the whole string when there is none |
| JsText.RoundDiv | lib/utils.ts:68 | definition: `Math.round(a / n)` as `(2a + n) div 2n`; `JsText.RoundDivIsNearest` states what it means |
| JsText.RoundDivIsNearest | lib/utils.ts:68 | `Math.round(a / n)` is the integer nearest to a / n, halves upward |
| JsText.RoundDivBetween | lib/utils.ts:68 | rounding a quotient stays within bounds that the exact quotient respects |
| Fetcher.Retry | lib/scraper.ts:315-349 | definition: the result and attempt count of the retry loop over a list of outcomes; `Fetcher.RetryCharacterised` characterises it |
| Fetcher.Fetch | lib/scraper.ts:315 | definition: the result of `fetchWithRetry(url)` with its default budget of 3 attempts on the network |
| Fetcher.Backoff | lib/scraper.ts:344 | definition: the pauses between attempts; `Fetcher.BackoffGrows` states their lengths |
| Fetcher.FetchWithRetry | lib/scraper.ts:315-349 | the loop yields the result and attempt count that `Retry` defines, and pauses `Backoff(attempts)` between attempts |
| Fetcher.RetryFromCharacterised | lib/scraper.ts:316-345 | from attempt i on, the loop stops at the first attempt that is not retryable or at the last allowed one, returns that attempt's result, and every earlier attempt was a retryable failure |
| Fetcher.RetryCharacterised | lib/scraper.ts:315-349 | with no budget nothing is attempted and the final throw is reached; otherwise 1..retries attempts, the last one's result, earlier ones all retryable failures, the budget spent only on retryable failures |
| Fetcher.NotFoundNeverRetried | lib/scraper.ts:324-338 | no attempt follows a 404 |
| Fetcher.NotFoundAttemptedOnce | lib/scraper.ts:324-338 | a URL that answers 404 is attempted exactly once and fails with not-found |
| Fetcher.FirstSuccessReturned | lib/scraper.ts:316-333 | after retryable failures, the first successful attempt's page is returned, after exactly that many attempts |
| Fetcher.PersistentFailureExhaustsBudget | lib/scraper.ts:340-343 | when every attempt fails retryably, all `retries` attempts are made and the last error is thrown |
| Fetcher.BackoffGrows | lib/scraper.ts:344 | one pause fewer than the attempts, the first 1000 ms, each 1000 ms longer than the one before |
| Listing.ExtractTotalPages | lib/scraper.ts:281-310 | definition: the first `(\d+)ページ中` number, else ⌈N/25⌉ for the first `合計：N件`, else 1; the rows after it state its properties |
| Listing.PagesMatchAtIsRegexMatch | lib/scraper.ts:287 | a digit run that begins at i and is followed by the page marker is a match of `(\d+)ページ中` at i |
| Listing.FirstMatch | lib/scraper.ts:287-296 | the leftmost match from i on, or none anywhere from i on |
| Listing.FirstMatchIs | lib/scraper.ts:287-296 | the first position that matches is the one the search finds |
| Listing.PagesMarkerWins | lib/scraper.ts:287-292 | when "Nページ中" occurs, the page count is the number of its first occurrence |
| Listing.ItemCountFallback | lib/scraper.ts:296-302 | without the page marker, the first "合計：N件" gives the least page count holding N items at 25 a page |
| Listing.SinglePageByDefault | lib/scraper.ts:304-305 | with neither pattern, the page count is 1 |
| Listing.TotalPagesFromMarker | lib/scraper.ts:286-292 | "12ページ中1ページ目" gives 12 pages |
| Listing.TotalPagesFromCount | lib/scraper.ts:294-302 | "合計：288件" gives 12 pages |
| Listing.TotalPagesDefault | lib/scraper.ts:304-305 | a body with neither pattern gives 1 page |
| Listing.NormaliseHref | lib/scraper.ts:255-258 | definition: the href made absolute and cut at the first '?'; `Listing.NormaliseHrefShape` and `Listing.QueryIgnored` state its properties |
| Listing.NormaliseHrefShape | lib/scraper.ts:255-258 | the URL has no '?' and starts with "http"; a relative href gets the site address in front; an absolute one is only cut; an href without a query is kept whole |
| Listing.QueryIgnored | lib/scraper.ts:257-258 | two hrefs that differ only in their query give the same URL |
| Listing.AnchorTitle | lib/scraper.ts:261-266 | definition: the trimmed link text, or the trimmed container title when that is blank; `Listing.AnchorTitleChoice` states its properties |
| Listing.AnchorTitleChoice | lib/scraper.ts:261-266 | the container's title is used exactly when the link text is blank; the title is trimmed either way |
| Listing.PageItemsAbsolute | lib/scraper.ts:251-258 | every candidate of a page has an absolute URL without a query |
| Listing.PageItemsFromAnchors | lib/scraper.ts:251-273 | every candidate comes from one selected anchor of the page |
| Listing.AnchorsGiveItems | lib/scraper.ts:251-273 | every selected anchor with a non-empty href yields its candidate |
| Listing.ExtractAuctionItemsFromPage | lib/scraper.ts:247-276 | the loop over the anchors yields the page's candidates in anchor order |
| Listing.FilterMatching | lib/scraper.ts:50-52 | the kept candidates are exactly the input's candidates whose title matches the keyword, and no more numerous than the input |
| Listing.FilterMatchingAppend | lib/scraper.ts:50-52 | filtering a concatenation filters each part and keeps the parts in order, so the kept candidates stay in input order |
| Listing.KeywordFilter | lib/scraper.ts:50-52 | definition: the filter for a truthy keyword, the list unchanged for a falsy one; `Listing.BlankKeywordKeepsAll` and `Listing.HarvestResult` state its effect |
| Listing.BlankKeywordKeepsAll | lib/scraper.ts:50-52 | a blank keyword keeps every candidate |
| Listing.Urls | lib/scraper.ts:57 | definition: `filteredItems.map(item => item.url)`; `Listing.UrlsMembership` states its property |
| Listing.UrlsMembership | lib/scraper.ts:57 | a URL is listed exactly when some candidate has it |
| Listing.Dedup | lib/scraper.ts:58 | definition: `Array.from(new Set(urls))` built by appending each URL not yet seen; the rows after it state its properties |
| Listing.DedupSpec | lib/scraper.ts:58 | `Array.from(new Set(urls))` has no repeats, holds exactly the input's URLs, and keeps them in order of first occurrence |
| Listing.DedupNoDuplicates | lib/scraper.ts:58 | no URL appears twice in the de-duplicated list |
| Listing.DedupMembers | lib/scraper.ts:58 | the de-duplicated list holds exactly the input's URLs |
| Listing.DedupFirstOrder | lib/scraper.ts:58 | the de-duplicated list keeps the order of first occurrence |
| Listing.ListingUrlInjective | lib/scraper.ts:23-39 | distinct pages of one seller have distinct addresses |
| Listing.WalkFromFailingPage | lib/scraper.ts:36-47 | a failed walk names the failing page, which is the last one requested |
| Listing.FailingPageFailsWalk | lib/scraper.ts:36-47 | any unfetchable page within range fails the whole walk |
| Listing.WalkFromRequestsInOrder | lib/scraper.ts:36-47 | the walk requests consecutive pages in increasing order |
| Listing.WalkFromFetchedBeforeLast | lib/scraper.ts:36-47 | every page requested before the last one was fetched |
| Listing.WalkFromSuccessRequestsAll | lib/scraper.ts:36 | a successful walk requested every page up to the total |
| Listing.RequestedCharacterised | lib/scraper.ts:21-47 | pages 1, 2, ... are requested in order, all but the last successfully; on success exactly max(total, 1) pages were requested, and on failure the last one requested failed |
| Listing.WalkAllNoQuery | lib/scraper.ts:17-58 | no harvested candidate URL has a query |
| Listing.Harvest | lib/scraper.ts:17-63 | definition: what `fetchAuctionUrls` returns or throws for a seller on the network; the rows after it state its properties |
| Listing.HarvestFailsIff | lib/scraper.ts:17-63 | harvesting fails, with the single fixed message, exactly when page 1 or one of pages 2..total cannot be fetched |
| Listing.HarvestResult | lib/scraper.ts:49-58 | the harvested URLs have no repeats and no query, and are exactly the URLs of the candidates whose title matches a truthy keyword, or of all candidates for a falsy one, listed in the order in which each first occurs among those candidates |
| Listing.FetchRemainingPages | lib/scraper.ts:36-47 | the page loop yields the walk over pages 2..total |
| Listing.FetchAuctionUrls | lib/scraper.ts:17-63 | `fetchAuctionUrls` returns the harvest, or throws its fixed message, after requesting the walk's pages |
| Details.Normalise | lib/scraper.ts:172-178 | definition: the field normalisation each strategy applies: `productName`, else `title`; the parsed price, else 0; `endTime`, else `endtime`; the status "closed" |
| Details.ExtractJson | lib/scraper.ts:153-242 | definition: the first inline script from which a strategy yields an item, normalised; the rows after it state its properties |
| Details.ExtractJsonData | lib/scraper.ts:153-242 | the loop with its early returns yields what `ExtractJson` defines |
| Details.ExtractFromNothing | lib/scraper.ts:158-237 | without the element, scripts with neither strategy 1 nor 2 yield nothing |
| Details.ExtractFromFirst | lib/scraper.ts:158-209 | without the element, the first script with strategy 1 or 2 decides the result |
| Details.ExtractNoneIff | lib/scraper.ts:153-242 | nothing is extracted exactly when there is no inline script, or when no script has strategy 1 or 2 and the element yields nothing |
| Details.ElementShadowsLaterScripts | lib/scraper.ts:211-229 | when the element yields an item, the first inline script alone decides the result |
| Details.ExtractedAlwaysClosed | lib/scraper.ts:174-228 | whatever strategy wins, the status is "closed" |
| Details.DetailOf | lib/scraper.ts:68-105 | definition: what `fetchAuctionDetails` returns for a URL on the network; `Details.DetailNoneIff` characterises it |
| Details.DetailNoneIff | lib/scraper.ts:68-105 | a detail is missing exactly when the fetch fails or nothing is extracted; a present one carries its URL, the segment after the last '/' as id, and the extracted fields |
| Details.FetchAuctionDetails | lib/scraper.ts:68-105 | the method yields `DetailOf` |
| Details.DetailResults | lib/scraper.ts:127-139 | definition: each URL's detail, in URL order; `Details.BatchItemsComeFromUrls` and `Details.FetchChunk` state its properties |
| Details.Reports | lib/scraper.ts:129-133 | definition: the `onProgress(completed, total)` calls for the first n completions; `Details.RunChunks` and `Details.FetchMultipleAuctionDetails` state what the batch reports |
| Details.Present | lib/scraper.ts:142-144 | definition: the non-null results in order; the rows after it state its properties |
| Details.PresentAppend | lib/scraper.ts:142-144 | keeping the non-null results distributes over concatenation |
| Details.PresentMembers | lib/scraper.ts:142-144 | the kept items are at most as many as the results, each is one of them, and every non-null result is kept |
| Details.BatchItemsComeFromUrls | lib/scraper.ts:110-148 | every item a batch returns is the detail of one of its URLs, carrying that URL |
| Details.SplitIntoChunks | lib/scraper.ts:118-121 | ⌈n/5⌉ chunks, chunk k being `urls[5k .. min(5k+5, n)]`, each non-empty and at most 5 long, concatenating back to the URLs |
| Details.FetchChunk | lib/scraper.ts:127-139 | one chunk's results in URL order, and its progress reports |
| Details.PushPresent | lib/scraper.ts:142-144 | the non-null results appended to the items |
| Details.RunChunk | lib/scraper.ts:124-145 | one turn of the chunk loop extends the items and the progress reports by that chunk's |
| Details.RunChunks | lib/scraper.ts:124-145 | the chunk loop yields the found items of all URLs in order, and reports 1..n |
| Details.FetchMultipleAuctionDetails | lib/scraper.ts:110-148 | the found details of all URLs in input order, the chunks that cover them, and the progress reports 1..n against n |
| SearchRoute.StreamController.constructor | app/api/search/route.ts:32-33 | a new stream is empty and open |
| SearchRoute.StreamController.Enqueue | app/api/search/route.ts:36-38 | an open stream gains the event at its end |
| SearchRoute.StreamController.Close | app/api/search/route.ts:109 | closing keeps the events |
| SearchRoute.LimitUrls | app/api/search/route.ts:57 | a prefix of the URLs: the first `limit` for a positive limit, all of them otherwise |
| SearchRoute.LimitKeepsPrefix | app/api/search/route.ts:57 | the limited list is a prefix of the URLs, and a non-empty list stays non-empty under any limit |
| SearchRoute.Percentage | app/api/search/route.ts:82 | definition: `Math.round(done / total * 100)` on exact rationals; `SearchRoute.PercentageBounds` states its properties |
| SearchRoute.PercentageBounds | app/api/search/route.ts:82 | the percentage lies in 0..100, grows with the work done, and is 100 when all is done |
| SearchRoute.ProgressEvents | app/api/search/route.ts:78-83 | definition: the progress event for each of the first i of n URLs; `SearchRoute.ProgressCountsUp` and `SearchRoute.ProgressPercentages` state its properties |
| SearchRoute.ProgressPercentages | app/api/search/route.ts:78-83 | the progress percentages stay in 0..100, never decrease, and end at 100 |
| SearchRoute.Prices | app/api/search/route.ts:91 | definition: `allItems.map(item => item.price)`; `SearchRoute.PricesPermutation` states its property |
| SearchRoute.PricesPermutation | app/api/search/route.ts:91-97 | reordering the items reorders their prices |
| SearchRoute.SortDesc | app/api/search/route.ts:94-97 | definition: the order of a stable sort with the comparator `time(b) - time(a)`, built by inserting each item after those that end no earlier |
| SearchRoute.SortDescSorts | app/api/search/route.ts:94-97 | the sorted list is latest first and a permutation of the input |
| SearchRoute.SortDescStable | app/api/search/route.ts:94-97 | the items of any one end time come out in their input order, as `Array.prototype.sort` is stable |
| SearchRoute.InsertDescDescending | app/api/search/route.ts:95-97 | inserting into a latest-first list keeps it latest first |
| SearchRoute.InsertDescMultiset | app/api/search/route.ts:95-97 | inserting adds exactly the one item |
| SearchRoute.InsertDescWithTime | app/api/search/route.ts:95-97 | an inserted item goes after the items of its own end time already there |
| SearchRoute.SortByEndTimeDescending | app/api/search/route.ts:95-97 | the array ends up holding `SortDesc` of its old contents: latest first, a permutation, equal end times in their old order |
| SearchRoute.InsertBackward | app/api/search/route.ts:95-97 | one insertion step puts a[i] into the sorted first i items as `InsertDesc` places it, and leaves the rest of the array alone |
| SearchRoute.SortedByEndTime | app/api/search/route.ts:94-97 | the sorted list is `SortDesc` of the items |
| SearchRoute.FoundStep | app/api/search/route.ts:72-75 | one more URL appends its detail, when found |
| SearchRoute.FetchDetailsWithProgress | app/api/search/route.ts:66-86 | one progress event per URL, k of n with its percentage, and the found details in URL order |
| SearchRoute.Report | app/api/search/route.ts:56-109 | a non-empty harvest: total, progress, then the sorted found items with the statistics of their prices, then the stream is closed |
| SearchRoute.StreamFor | app/api/search/route.ts:43-122 | definition: the events a harvest's outcome calls for: the error event, the empty result, or total, progress and the complete event with the sorted found items and their statistics |
| SearchRoute.Respond | app/api/search/route.ts:44-122 | after the status event: the error event for a failed harvest, the empty result with null statistics for an empty one, the full report otherwise; the stream ends closed |
| SearchRoute.Start | app/api/search/route.ts:33-54 | the status event, then the stream the seller's harvest calls for |
| SearchRoute.Post | app/api/search/route.ts:9-133 | a missing seller URL and an invalid one get their 400 errors; a valid one gets the event stream of its seller's run |
| SearchRoute.OneTerminalEvent | app/api/search/route.ts:33-122 | every stream opens with the status event and ends with exactly one terminal event; the error event comes exactly when the harvest fails and carries its message |
| SearchRoute.RunErrorIsHarvestFailure | app/api/search/route.ts:110-121 | an error event of a run always carries the harvest's fixed failure message |
| SearchRoute.ProgressCountsUp | app/api/search/route.ts:60-83 | the total event announces the limited count, then the progress events count 1..n |
| SearchRoute.CompleteDescribesItems | app/api/search/route.ts:90-107 | the final count is the number of items, they are latest first, the statistics are those of their own prices, and each is the detail of its URL |

## Left out

- Network I/O, the `User-Agent` header and `response.text()`: the network is a map from URL to outcomes, and a page arrives already parsed.
- The pauses `sleep(RATE_LIMIT_MS)` before each listing page, chunk and detail fetch: timers are not modelled. The retry pauses are modelled as the list `Backoff(attempts)` of their lengths.
- HTML parsing with cheerio, the two script regular expressions and `JSON.parse`: a `Document` carries what each yields, so a script with a malformed payload has none. The two page-count regular expressions are modelled on the body text.
- `parseInt` on a payload price: the payload carries the number parsed, or none (`NaN`).
- `new URL(...)` and `new Date(...).getTime()`: parameters of the handler. An unparseable date, whose time is `NaN` and makes the comparator inconsistent, is not modelled: every `endTime` has an integer time.
- A network error whose message happens to contain "404" (lib/scraper.ts:336): only a 404 status is treated as not-found.
- JsText.ToLower: lower-cases A-Z only, while `toLowerCase` also folds other letters; keyword matching in the model therefore stays case-sensitive for full-width letters (Ａ–Ｚ) and other non-ASCII letters.
- Details.FetchMultipleAuctionDetails: the `onProgress` argument is optional (lib/scraper.ts:112, 129-133), but the model always produces the progress reports, as if a callback were always passed.
- `Promise.all` and the order in which a chunk's fetches complete: the chunk's fetches run in order, so the progress reports of a chunk come out in URL order.
- SearchRoute.Percentage: `Math.round(((i + 1) / n) * 100)` rounds the floating-point quotient before the multiplication, while the model rounds the exact rational 100·(i + 1)/n. They differ where the exact value is a half that the quotient's rounding error pushes below: for 23 of 40 the code computes 57.49999999999999 and reports 57 where the model reports 58, and for 29 of 200 it reports 14 where the model reports 15.
- SearchRoute.ProgressEvents: its percentages are `SearchRoute.Percentage`, so they share that difference.
- SearchRoute.FetchDetailsWithProgress: the progress events it sends carry `SearchRoute.Percentage`, so they share that difference.
- Utils.CalculateStatistics: the sum and the average `Math.round(sum / n)` are floating-point operations. A single division of integers cannot land on a half that is not exact, so the average agrees with the model's while the sum stays below about 2^52 in magnitude; larger sums are not modelled.
- Logging through `console.log`, `console.warn` and `console.error`.
- Failures of `request.json()`, a non-numeric `limit` and a `limit` that is not a whole number: the request is a well-typed record with an integer limit.
- The server-sent-events framing (`data: ...\n\n`) and the JSON encoding of events: the stream is a list of events.
- Failures the handler's `catch` could see other than the harvest's: no other step of the model throws.
- The user interface under `app/` and the image types: they do not take part in the search.
