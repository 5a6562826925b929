/** The detail side of lib/scraper.ts: `extractJsonData`, `fetchAuctionDetails`
    and `fetchMultipleAuctionDetails`. */
module Details {
  import opened Wrappers
  import opened JsText
  import opened Dom
  import opened Fetcher
  import opened AuctionTypes

  const PAGE_DATA_MARKER := "var pageData"
  const NEXT_DATA_MARKER := "__NEXT_DATA__"
  const CLOSED := "closed"

  /** Items fetched side by side in one chunk. */
  const PARALLEL_LIMIT: nat := 5
  /** Pause before each chunk, in milliseconds. */
  const RATE_LIMIT_MS: nat := 500

  /** What `extractJsonData` returns when a strategy succeeds. */
  datatype ExtractedData = ExtractedData(title: string, price: int, endTime: string, status: string)

  /** The field normalisation every strategy applies to the item it reached:
      `productName || title || ''`, `parseInt(price) || 0`,
      `endTime || endtime || ''`, and the status fixed to "closed". */
  function Normalise(p: Payload): ExtractedData {
    ExtractedData(
      if p.productName != [] then p.productName else p.title,
      if p.price.Some? then p.price.value else 0,
      if p.endTime != [] then p.endTime else p.endtime,
      CLOSED)
  }

  // ---------------------------------------------------------------------------
  // Strategy selection

  /** Strategy 1: the script mentions `var pageData` and its payload is found. */
  predicate PageDataWins(s: Script) {
    Contains(s.content, PAGE_DATA_MARKER) && s.pageData.Some?
  }

  /** Strategy 2: the script mentions `__NEXT_DATA__` and its payload is found. */
  predicate NextDataWins(s: Script) {
    Contains(s.content, NEXT_DATA_MARKER) && s.nextData.Some?
  }

  /** What one turn of the script loop yields: strategy 1, else strategy 2 on
      this script, else strategy 3, which reads the `#__NEXT_DATA__` element
      of the whole document on every turn. */
  function ScriptTurn(doc: Document, s: Script): Option<Payload> {
    if PageDataWins(s) then s.pageData
    else if NextDataWins(s) then s.nextData
    else doc.nextDataElement
  }

  /** The script loop from script `i` on: the first turn that yields an item
      returns it. */
  function ExtractFrom(doc: Document, i: nat): Option<ExtractedData>
    decreases |doc.inlineScripts| - i
  {
    if i >= |doc.inlineScripts| then None
    else match ScriptTurn(doc, doc.inlineScripts[i])
      case Some(p) => Some(Normalise(p))
      case None => ExtractFrom(doc, i + 1)
  }

  /** What `extractJsonData` returns for a page: the normalised item of the
      first inline script from which a strategy reaches one, or nothing. */
  function ExtractJson(doc: Document): Option<ExtractedData> {
    ExtractFrom(doc, 0)
  }

  /** `extractJsonData`: the loop over the inline scripts with its early
      returns. */
  method ExtractJsonData(doc: Document) returns (data: Option<ExtractedData>)
    ensures data == ExtractJson(doc)
  {
    ghost var target := ExtractJson(doc);
    var scripts := doc.inlineScripts;
    for i := 0 to |scripts|
      invariant target == ExtractFrom(doc, i)
    {
      var s := scripts[i];
      if Contains(s.content, PAGE_DATA_MARKER) && s.pageData.Some? {
        return Some(Normalise(s.pageData.value));
      }
      if Contains(s.content, NEXT_DATA_MARKER) && s.nextData.Some? {
        return Some(Normalise(s.nextData.value));
      }
      if doc.nextDataElement.Some? {
        return Some(Normalise(doc.nextDataElement.value));
      }
    }
    return None;
  }

  /** A run of scripts none of which has strategy 1 or 2, when the element is
      absent, yields nothing. */
  lemma {:induction false} ExtractFromNothing(doc: Document, i: nat)
    requires doc.nextDataElement.None?
    requires forall j :: i <= j < |doc.inlineScripts| ==>
               !PageDataWins(doc.inlineScripts[j]) && !NextDataWins(doc.inlineScripts[j])
    ensures ExtractFrom(doc, i) == None
    decreases |doc.inlineScripts| - i
  {
    if i < |doc.inlineScripts| {
      ExtractFromNothing(doc, i + 1);
    }
  }

  /** With the element absent, the first script that has strategy 1 or 2
      decides the result. */
  lemma {:induction false} ExtractFromFirst(doc: Document, i: nat, k: nat)
    requires doc.nextDataElement.None?
    requires i <= k < |doc.inlineScripts|
    requires PageDataWins(doc.inlineScripts[k]) || NextDataWins(doc.inlineScripts[k])
    requires forall j :: i <= j < k ==>
               !PageDataWins(doc.inlineScripts[j]) && !NextDataWins(doc.inlineScripts[j])
    ensures ExtractFrom(doc, i) == Some(Normalise(ScriptTurn(doc, doc.inlineScripts[k]).value))
    decreases k - i
  {
    if i < k {
      ExtractFromFirst(doc, i + 1, k);
    }
  }

  /** Extraction finds nothing exactly when there is no inline script at all,
      or when no script has strategy 1 or 2 and the `#__NEXT_DATA__` element
      yields nothing: strategy 3 is never tried without an inline script. */
  lemma ExtractNoneIff(doc: Document)
    ensures ExtractJson(doc).None? <==>
              |doc.inlineScripts| == 0 ||
              (doc.nextDataElement.None? &&
               forall j :: 0 <= j < |doc.inlineScripts| ==>
                 !PageDataWins(doc.inlineScripts[j]) && !NextDataWins(doc.inlineScripts[j]))
  {
    var scripts := doc.inlineScripts;
    if |scripts| > 0 {
      if doc.nextDataElement.Some? {
        assert ScriptTurn(doc, scripts[0]).Some?;
      } else if forall j :: 0 <= j < |scripts| ==> !PageDataWins(scripts[j]) && !NextDataWins(scripts[j]) {
        ExtractFromNothing(doc, 0);
      } else {
        var k := FirstWinning(scripts);
        ExtractFromFirst(doc, 0, k);
      }
    }
  }

  /** The index of the first script that has strategy 1 or 2. */
  lemma FirstWinning(scripts: seq<Script>) returns (k: nat)
    requires exists j :: 0 <= j < |scripts| && (PageDataWins(scripts[j]) || NextDataWins(scripts[j]))
    ensures k < |scripts| && (PageDataWins(scripts[k]) || NextDataWins(scripts[k]))
    ensures forall j :: 0 <= j < k ==> !PageDataWins(scripts[j]) && !NextDataWins(scripts[j])
  {
    var j :| 0 <= j < |scripts| && (PageDataWins(scripts[j]) || NextDataWins(scripts[j]));
    k := j;
    while exists i :: 0 <= i < k && (PageDataWins(scripts[i]) || NextDataWins(scripts[i]))
      invariant k < |scripts| && (PageDataWins(scripts[k]) || NextDataWins(scripts[k]))
      decreases k
    {
      var i :| 0 <= i < k && (PageDataWins(scripts[i]) || NextDataWins(scripts[i]));
      k := i;
    }
  }

  /** When the `#__NEXT_DATA__` element yields an item, the first inline
      script alone decides the result: its own strategy 1 or 2, or else the
      element; every later script is shadowed. */
  lemma ElementShadowsLaterScripts(doc: Document)
    requires doc.nextDataElement.Some? && |doc.inlineScripts| > 0
    ensures ExtractJson(doc) == Some(Normalise(
              if PageDataWins(doc.inlineScripts[0]) then doc.inlineScripts[0].pageData.value
              else if NextDataWins(doc.inlineScripts[0]) then doc.inlineScripts[0].nextData.value
              else doc.nextDataElement.value))
  {
  }

  /** Whatever strategy wins, the extracted status is "closed". */
  lemma {:induction false} ExtractedAlwaysClosed(doc: Document, i: nat)
    requires ExtractFrom(doc, i).Some?
    ensures ExtractFrom(doc, i).value.status == CLOSED
    decreases |doc.inlineScripts| - i
  {
    if ScriptTurn(doc, doc.inlineScripts[i]).None? {
      ExtractedAlwaysClosed(doc, i + 1);
    }
  }

  // ---------------------------------------------------------------------------
  // One detail page

  /** `fetchAuctionDetails` on its inputs: the page through the retry loop,
      the extraction, the status check, and the item. Any failure is `None`. */
  function DetailOf(web: Web, url: string): Option<AuctionItem> {
    match Fetch(web, url)
    case Failure(_) => None
    case Success(doc) =>
      match ExtractJson(doc)
      case None => None
      case Some(d) =>
        if d.status != CLOSED then None
        else Some(AuctionItem(LastSegment(url), d.title, d.price, d.endTime, url))
  }

  /** A detail is missing exactly when the fetch fails or no strategy finds
      the item: the status check never rejects anything. A present detail
      carries its own URL, the text after its last '/' as its id, and the
      normalised fields of the item found. */
  lemma DetailNoneIff(web: Web, url: string)
    ensures DetailOf(web, url).None? <==> Fetch(web, url).Failure? || ExtractJson(Fetch(web, url).value).None?
    ensures DetailOf(web, url).Some? ==>
              var item := DetailOf(web, url).value;
              var d := ExtractJson(Fetch(web, url).value).value;
              && item.url == url && item.id == LastSegment(url) && '/' !in item.id
              && item.title == d.title && item.price == d.price && item.endTime == d.endTime
  {
    if Fetch(web, url).Success? && ExtractJson(Fetch(web, url).value).Some? {
      ExtractedAlwaysClosed(Fetch(web, url).value, 0);
    }
  }

  /** `fetchAuctionDetails`. */
  method FetchAuctionDetails(web: Web, url: string) returns (item: Option<AuctionItem>)
    ensures item == DetailOf(web, url)
  {
    var html, attempts, _ := FetchWithRetry(web, url, DEFAULT_RETRIES);
    RetryRunIsFetch(web, url, html, attempts);
    if html.Failure? {
      return None;
    }
    var data := ExtractJsonData(html.value);
    if data.None? {
      return None;
    }
    if data.value.status != CLOSED {
      return None;
    }
    var id := LastSegment(url);
    item := Some(AuctionItem(id, data.value.title, data.value.price, data.value.endTime, url));
  }

  // ---------------------------------------------------------------------------
  // The batch controller

  /** The smaller of two integers. */
  function Min(a: int, b: int): int {
    if a <= b then a else b
  }

  /** Chunks laid end to end. */
  function Flatten(chunks: seq<seq<string>>): seq<string> {
    if chunks == [] then [] else Flatten(chunks[..|chunks| - 1]) + chunks[|chunks| - 1]
  }

  /** The detail of each URL, in input order. */
  function DetailResults(web: Web, urls: seq<string>): (r: seq<Option<AuctionItem>>)
    ensures |r| == |urls| && forall k :: 0 <= k < |urls| ==> r[k] == DetailOf(web, urls[k])
  {
    seq(|urls|, k requires 0 <= k < |urls| => DetailOf(web, urls[k]))
  }

  /** The non-null results, in order (`results.forEach(item => { if (item) items.push(item) })`). */
  function Present(results: seq<Option<AuctionItem>>): seq<AuctionItem> {
    if results == [] then []
    else Present(results[..|results| - 1]) + (match results[|results| - 1] case Some(x) => [x] case None => [])
  }

  /** The progress reports `onProgress(completed, total)` for the first `n`
      completions. */
  function Reports(n: nat, total: nat): (r: seq<(nat, nat)>)
    ensures |r| == n && forall k :: 0 <= k < n ==> r[k] == (k + 1, total)
  {
    seq(n, k requires 0 <= k < n => (k + 1, total))
  }

  lemma ReportsGrow(completed: nat, k: nat, total: nat)
    ensures Reports(completed + k + 1, total)[completed..] == Reports(completed + k, total)[completed..] + [(completed + k + 1, total)]
  {
  }

  lemma {:induction false} PresentAppend(a: seq<Option<AuctionItem>>, b: seq<Option<AuctionItem>>)
    ensures Present(a + b) == Present(a) + Present(b)
    decreases |b|
  {
    if b != [] {
      var b' := b[..|b| - 1];
      assert (a + b)[..|a + b| - 1] == a + b';
      PresentAppend(a, b');
    } else {
      assert a + b == a;
    }
  }

  /** The non-null results are at most as many as the results, each is one
      of them, and every non-null result is among them. */
  lemma {:induction false} PresentMembers(results: seq<Option<AuctionItem>>)
    ensures |Present(results)| <= |results|
    ensures forall x :: x in Present(results) ==> Some(x) in results
    ensures forall k :: 0 <= k < |results| && results[k].Some? ==> results[k].value in Present(results)
  {
    if results != [] {
      var init := results[..|results| - 1];
      PresentMembers(init);
      assert forall k :: 0 <= k < |init| ==> results[k] == init[k];
    }
  }

  /** Every item the batch returns is the detail of one of the input URLs,
      carrying that URL. */
  lemma BatchItemsComeFromUrls(web: Web, urls: seq<string>, x: AuctionItem)
    requires x in Present(DetailResults(web, urls))
    ensures x.url in urls && DetailOf(web, x.url) == Some(x)
  {
    PresentMembers(DetailResults(web, urls));
    var k :| 0 <= k < |urls| && DetailResults(web, urls)[k] == Some(x);
    DetailNoneIff(web, urls[k]);
  }

  /** The URL list cut into consecutive slices of `PARALLEL_LIMIT`, the last
      one possibly shorter. */
  method SplitIntoChunks(urls: seq<string>) returns (chunks: seq<seq<string>>)
    ensures |chunks| == (|urls| + PARALLEL_LIMIT - 1) / PARALLEL_LIMIT
    ensures forall k :: 0 <= k < |chunks| ==>
              chunks[k] == urls[PARALLEL_LIMIT * k .. Min(PARALLEL_LIMIT * k + PARALLEL_LIMIT, |urls|)]
    ensures forall k :: 0 <= k < |chunks| ==> 0 < |chunks[k]| <= PARALLEL_LIMIT
    ensures Flatten(chunks) == urls
  {
    chunks := [];
    var i := 0;
    while i < |urls|
      invariant i == PARALLEL_LIMIT * |chunks|
      invariant chunks != [] ==> i - PARALLEL_LIMIT < |urls|
      invariant forall k :: 0 <= k < |chunks| ==>
                  chunks[k] == urls[PARALLEL_LIMIT * k .. Min(PARALLEL_LIMIT * k + PARALLEL_LIMIT, |urls|)]
      invariant Flatten(chunks) == urls[..Min(i, |urls|)]
    {
      var chunk := urls[i .. Min(i + PARALLEL_LIMIT, |urls|)];
      assert (chunks + [chunk])[..|chunks|] == chunks;
      assert urls[..Min(i, |urls|)] + chunk == urls[..Min(i + PARALLEL_LIMIT, |urls|)];
      chunks := chunks + [chunk];
      i := i + PARALLEL_LIMIT;
    }
    assert urls[..|urls|] == urls;
  }

  /** One chunk: each URL's detail, in chunk order, with one progress report
      per completion. `Promise.all` keeps input order in its results; the
      completion order inside a chunk is taken to be input order. */
  method FetchChunk(web: Web, chunk: seq<string>, completed: nat, total: nat)
    returns (results: seq<Option<AuctionItem>>, reports: seq<(nat, nat)>)
    ensures results == DetailResults(web, chunk)
    ensures reports == Reports(completed + |chunk|, total)[completed..]
  {
    results := [];
    reports := [];
    for k := 0 to |chunk|
      invariant |results| == k && forall j :: 0 <= j < k ==> results[j] == DetailOf(web, chunk[j])
      invariant reports == Reports(completed + k, total)[completed..]
    {
      var item := FetchAuctionDetails(web, chunk[k]);
      results := results + [item];
      ReportsGrow(completed, k, total);
      reports := reports + [(completed + k + 1, total)];
    }
    assert chunk[..|chunk|] == chunk;
  }

  /** `results.forEach(item => { if (item) items.push(item) })`. */
  method PushPresent(items: seq<AuctionItem>, results: seq<Option<AuctionItem>>) returns (all: seq<AuctionItem>)
    ensures all == items + Present(results)
  {
    all := items;
    for k := 0 to |results|
      invariant all == items + Present(results[..k])
    {
      assert results[..k + 1][..k] == results[..k];
      if results[k].Some? {
        all := all + [results[k].value];
      }
    }
    assert results[..|results|] == results;
  }

  /** `fetchMultipleAuctionDetails`: the chunks one after another, the
      non-null details in input order, and the progress reports 1..n, each
      with total n. The pause before each chunk is not modelled. */
  method FetchMultipleAuctionDetails(web: Web, urls: seq<string>)
    returns (items: seq<AuctionItem>, chunks: seq<seq<string>>, reports: seq<(nat, nat)>)
    ensures items == Present(DetailResults(web, urls))
    ensures Flatten(chunks) == urls && forall k :: 0 <= k < |chunks| ==> 0 < |chunks[k]| <= PARALLEL_LIMIT
    ensures reports == Reports(|urls|, |urls|)
  {
    chunks := SplitIntoChunks(urls);
    items, reports := RunChunks(web, chunks, |urls|);
  }

  /** The chunk loop: chunks fetched one after another, the non-null
      results and the progress reports of each appended in order. */
  method RunChunks(web: Web, chunks: seq<seq<string>>, total: nat)
    returns (items: seq<AuctionItem>, reports: seq<(nat, nat)>)
    ensures items == Present(DetailResults(web, Flatten(chunks)))
    ensures reports == Reports(|Flatten(chunks)|, total)
  {
    items := [];
    reports := [];
    var completed: nat := 0;
    ghost var done: seq<string> := [];
    for c := 0 to |chunks|
      invariant done == Flatten(chunks[..c])
      invariant completed == |done|
      invariant items == Present(DetailResults(web, done))
      invariant reports == Reports(completed, total)
    {
      FlattenStep(chunks, c);
      items, reports := RunChunk(web, chunks[c], total, completed, done, items, reports);
      done := done + chunks[c];
      completed := completed + |chunks[c]|;
    }
    assert chunks[..|chunks|] == chunks;
  }

  /** One turn of the chunk loop: the chunk's details, their non-null
      results appended in order, and its progress reports appended. */
  method RunChunk(web: Web, chunk: seq<string>, total: nat, completed: nat, ghost done: seq<string>,
                  items: seq<AuctionItem>, reports: seq<(nat, nat)>)
    returns (items': seq<AuctionItem>, reports': seq<(nat, nat)>)
    requires completed == |done|
    requires items == Present(DetailResults(web, done))
    requires reports == Reports(completed, total)
    ensures items' == Present(DetailResults(web, done + chunk))
    ensures reports' == Reports(|done| + |chunk|, total)
  {
    var results, chunkReports := FetchChunk(web, chunk, completed, total);
    PresentOfAppend(web, done, chunk);
    items' := PushPresent(items, results);
    ReportsAppend(completed, |chunk|, total);
    reports' := reports + chunkReports;
  }

  lemma FlattenStep(chunks: seq<seq<string>>, c: nat)
    requires c < |chunks|
    ensures Flatten(chunks[..c + 1]) == Flatten(chunks[..c]) + chunks[c]
  {
    assert chunks[..c + 1][..c] == chunks[..c];
  }

  /** The found items of two runs of URLs, one after the other. */
  lemma PresentOfAppend(web: Web, a: seq<string>, b: seq<string>)
    ensures Present(DetailResults(web, a + b)) == Present(DetailResults(web, a)) + Present(DetailResults(web, b))
  {
    DetailResultsAppend(web, a, b);
    PresentAppend(DetailResults(web, a), DetailResults(web, b));
  }

  lemma DetailResultsAppend(web: Web, a: seq<string>, b: seq<string>)
    ensures DetailResults(web, a + b) == DetailResults(web, a) + DetailResults(web, b)
  {
  }

  lemma ReportsAppend(completed: nat, n: nat, total: nat)
    ensures Reports(completed + n, total) == Reports(completed, total) + Reports(completed + n, total)[completed..]
  {
  }
}
