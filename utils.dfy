/** lib/utils.ts: seller-ID extraction, keyword matching and price statistics. */
module Utils {
  import opened Wrappers
  import opened JsText
  import opened AuctionTypes

  const SELLER_HOST := "auctions.yahoo.co.jp"
  const SELLER_PARAM := "auc_user_id"

  /** What the WHATWG URL parser yields that the application reads: the
      hostname and the query as decoded name/value pairs, in order. */
  datatype UrlRecord = UrlRecord(hostname: string, query: seq<(string, string)>)

  /** `URLSearchParams.get(name)`: the value of the first pair named `name`. */
  function SearchParam(query: seq<(string, string)>, name: string): (r: Option<string>)
    ensures r.None? <==> forall k :: 0 <= k < |query| ==> query[k].0 != name
    ensures r.Some? ==> exists k :: 0 <= k < |query| && query[k] == (name, r.value) &&
                                   forall j :: 0 <= j < k ==> query[j].0 != name
  {
    if query == [] then
      None
    else if query[0].0 == name then
      Some(query[0].1)
    else
      var r := SearchParam(query[1..], name);
      assert r.Some? ==> exists k :: 0 <= k < |query| && query[k] == (name, r.value) &&
                                     forall j :: 0 <= j < k ==> query[j].0 != name by {
        if r.Some? {
          var k :| 0 <= k < |query[1..]| && query[1..][k] == (name, r.value) &&
                   forall j :: 0 <= j < k ==> query[1..][j].0 != name;
          assert query[k + 1] == (name, r.value);
          assert forall j :: 0 <= j < k + 1 ==> query[j].0 != name by {
            forall j | 0 <= j < k + 1 ensures query[j].0 != name {
              if j > 0 { assert query[j] == query[1..][j - 1]; }
            }
          }
        }
      }
      r
  }

  /** `extractSellerIdFromUrl`: `url` is the parsed seller page URL, `None`
      when the URL parser throws. The host must contain the auction domain
      and the seller parameter must be present and not blank. */
  function ExtractSellerIdFromUrl(url: Option<UrlRecord>): (r: Option<string>)
    ensures r.Some? ==> url.Some? && Contains(url.value.hostname, SELLER_HOST)
    ensures r.Some? ==> r.value != [] && !IsJsSpace(r.value[0]) && !IsJsSpace(r.value[|r.value| - 1])
    ensures r.Some? ==> SearchParam(url.value.query, SELLER_PARAM).Some? &&
                        r.value == Trim(SearchParam(url.value.query, SELLER_PARAM).value)
    ensures url.Some? && Contains(url.value.hostname, SELLER_HOST) ==>
              (r.None? <==> SearchParam(url.value.query, SELLER_PARAM).None? ||
                            AllSpace(SearchParam(url.value.query, SELLER_PARAM).value))
  {
    match url
    case None => None
    case Some(u) =>
      if !Contains(u.hostname, SELLER_HOST) then
        None
      else
        match SearchParam(u.query, SELLER_PARAM)
        case None => None
        case Some(v) => if v == [] || Trim(v) == [] then None else Some(Trim(v))
  }

  /** `isValidSellerUrl`. */
  function IsValidSellerUrl(url: Option<UrlRecord>): (b: bool)
    ensures b <==> ExtractSellerIdFromUrl(url).Some?
    ensures b <==> url.Some? && Contains(url.value.hostname, SELLER_HOST) &&
                   SearchParam(url.value.query, SELLER_PARAM).Some? &&
                   !AllSpace(SearchParam(url.value.query, SELLER_PARAM).value)
  {
    ExtractSellerIdFromUrl(url) != None
  }

  /** Pairs with other names in front of the parameter do not change the lookup. */
  lemma {:induction false} SearchParamSkips(before: seq<(string, string)>, rest: seq<(string, string)>, name: string)
    requires forall k :: 0 <= k < |before| ==> before[k].0 != name
    ensures SearchParam(before + rest, name) == SearchParam(rest, name)
  {
    if before != [] {
      assert (before + rest)[0] == before[0];
      assert (before + rest)[1..] == before[1..] + rest;
      SearchParamSkips(before[1..], rest, name);
    } else {
      assert before + rest == rest;
    }
  }

  /** A seller page whose `auc_user_id` is an already trimmed, non-empty id
      gives back exactly that id, whatever else its query holds. */
  lemma {:induction false} SellerIdRoundTrip(host: string, before: seq<(string, string)>, id: string, after: seq<(string, string)>)
    requires Contains(host, SELLER_HOST)
    requires forall k :: 0 <= k < |before| ==> before[k].0 != SELLER_PARAM
    requires id != [] && !IsJsSpace(id[0]) && !IsJsSpace(id[|id| - 1])
    ensures ExtractSellerIdFromUrl(Some(UrlRecord(host, before + [(SELLER_PARAM, id)] + after))) == Some(id)
  {
    assert before + [(SELLER_PARAM, id)] + after == before + ([(SELLER_PARAM, id)] + after);
    SearchParamSkips(before, [(SELLER_PARAM, id)] + after, SELLER_PARAM);
    TrimOfTrimmed(id);
  }

  /** `matchesKeyword`: true for a blank keyword, otherwise a case-insensitive
      substring test of the trimmed keyword against the title. */
  function MatchesKeyword(title: string, keyword: string): (b: bool)
    ensures AllSpace(keyword) ==> b
    ensures !AllSpace(keyword) ==>
              (b <==> exists i: nat :: OccursAt(ToLower(title), Trim(ToLower(keyword)), i))
  {
    if keyword == [] || Trim(keyword) == [] then
      true
    else
      LowerKeepsSpaces(keyword);
      Contains(ToLower(title), Trim(ToLower(keyword)))
  }

  /** Lowering changes no whitespace into non-whitespace and back. */
  lemma LowerKeepsSpaces(s: string)
    ensures AllSpace(ToLower(s)) <==> AllSpace(s)
  {
    assert forall k :: 0 <= k < |s| ==> (IsJsSpace(ToLower(s)[k]) <==> IsJsSpace(s[k]));
  }

  /** Matching ignores letter case in both the title and the keyword. */
  lemma {:induction false} MatchesKeywordIgnoresCase(title: string, keyword: string)
    ensures MatchesKeyword(ToLower(title), keyword) == MatchesKeyword(title, keyword)
    ensures MatchesKeyword(title, ToLower(keyword)) == MatchesKeyword(title, keyword)
  {
    LowerIdempotent(title);
    LowerIdempotent(keyword);
    LowerKeepsSpaces(keyword);
  }

  lemma LowerIdempotent(s: string)
    ensures ToLower(ToLower(s)) == ToLower(s)
  {
  }

  /** A title containing the keyword verbatim (after trimming, in lower case)
      matches it. */
  lemma MatchesKeywordInfix(pre: string, keyword: string, post: string)
    requires !AllSpace(keyword)
    ensures MatchesKeyword(pre + Trim(ToLower(keyword)) + post, keyword)
  {
    var k := Trim(ToLower(keyword));
    LowerIdempotent(keyword);
    TrimKeepsLower(ToLower(keyword));
    LowerConcat(pre, k);
    LowerConcat(pre + k, post);
    assert ToLower(pre + k + post) == ToLower(pre) + k + ToLower(post);
    ContainsInfix(ToLower(pre), k, ToLower(post));
    assert Trim(keyword) != [];
  }

  lemma ContainsInfix(a: string, k: string, b: string)
    ensures Contains(a + k + b, k)
  {
    assert (a + k + b)[|a|..|a| + |k|] == k;
    assert OccursAt(a + k + b, k, |a|);
  }

  predicate IsLower(s: string) {
    forall j :: 0 <= j < |s| ==> LowerChar(s[j]) == s[j]
  }

  lemma LowerConcat(a: string, b: string)
    ensures ToLower(a + b) == ToLower(a) + ToLower(b)
  {
  }

  lemma SliceKeepsLower(s: string, i: nat, j: nat)
    requires IsLower(s) && i <= j <= |s|
    ensures IsLower(s[i..j])
  {
    forall k | 0 <= k < j - i ensures LowerChar(s[i..j][k]) == s[i..j][k] {
      assert s[i..j][k] == s[i + k];
    }
  }

  /** Trimming a lower-case string leaves a lower-case string, which lowering
      no longer changes. */
  lemma TrimKeepsLower(s: string)
    requires ToLower(s) == s
    ensures ToLower(Trim(s)) == Trim(s)
  {
    assert IsLower(s) by {
      forall k | 0 <= k < |s| ensures LowerChar(s[k]) == s[k] {
        assert ToLower(s)[k] == LowerChar(s[k]);
      }
    }
    var t := TrimStart(s);
    SliceKeepsLower(s, |s| - |t|, |s|);
    var r := TrimEnd(t);
    SliceKeepsLower(t, 0, |r|);
  }

  /** Sum of a list of prices (`reduce((acc, p) => acc + p, 0)`). */
  function Sum(prices: seq<int>): int {
    if prices == [] then 0 else prices[0] + Sum(prices[1..])
  }

  /** `Math.max(...prices)` for a non-empty list. */
  function Max(prices: seq<int>): (m: int)
    requires prices != []
    ensures m in prices && forall p :: p in prices ==> p <= m
  {
    if |prices| == 1 then prices[0]
    else
      var m := Max(prices[1..]);
      assert forall p :: p in prices ==> p == prices[0] || p in prices[1..];
      if prices[0] > m then prices[0] else m
  }

  /** `Math.min(...prices)` for a non-empty list. */
  function Min(prices: seq<int>): (m: int)
    requires prices != []
    ensures m in prices && forall p :: p in prices ==> m <= p
  {
    if |prices| == 1 then prices[0]
    else
      var m := Min(prices[1..]);
      assert forall p :: p in prices ==> p == prices[0] || p in prices[1..];
      if prices[0] < m then prices[0] else m
  }

  /** `calculateStatistics`: null for no prices; otherwise the rounded mean,
      the maximum and the minimum. */
  function CalculateStatistics(prices: seq<int>): (r: Option<Statistics>)
    ensures r.None? <==> prices == []
    ensures r.Some? ==> r.value.max in prices && r.value.min in prices
    ensures r.Some? ==> forall p :: p in prices ==> r.value.min <= p <= r.value.max
    ensures r.Some? ==> var n := |prices|;
              2 * n * r.value.average - n <= 2 * Sum(prices) < 2 * n * r.value.average + n
    ensures r.Some? ==> r.value.min <= r.value.average <= r.value.max
  {
    if prices == [] then
      None
    else
      var n := |prices|;
      var average := RoundDiv(Sum(prices), n);
      RoundDivIsNearest(Sum(prices), n);
      assert forall k :: 0 <= k < n ==> prices[k] in prices;
      SumBounds(prices, Min(prices), Max(prices));
      RoundDivBetween(Sum(prices), n, Min(prices), Max(prices));
      Some(Statistics(average, Max(prices), Min(prices)))
  }

  /** The sum of n prices, each at least `lo` and at most `hi`, lies between
      n times `lo` and n times `hi`. */
  lemma {:induction false} SumBounds(prices: seq<int>, lo: int, hi: int)
    requires forall k :: 0 <= k < |prices| ==> lo <= prices[k] <= hi
    ensures |prices| * lo <= Sum(prices) <= |prices| * hi
  {
    if prices != [] {
      var n := |prices| - 1;
      SumBounds(prices[1..], lo, hi);
      assert (n + 1) * lo == n * lo + lo;
      assert (n + 1) * hi == n * hi + hi;
    }
  }

  lemma StatisticsExample()
    ensures CalculateStatistics([10, 20, 30]) == Some(Statistics(20, 30, 10))
  {
    assert Sum([10, 20, 30]) == 60 by {
      assert [10, 20, 30][1..] == [20, 30];
      assert [20, 30][1..] == [30];
    }
    var s := CalculateStatistics([10, 20, 30]).value;
    assert s.max == 30 && s.min == 10;
  }

  /** The sum depends only on the multiset of prices. */
  lemma {:induction false} SumPermutation(a: seq<int>, b: seq<int>)
    requires multiset(a) == multiset(b)
    ensures Sum(a) == Sum(b)
    decreases |a|
  {
    if a == [] {
      assert |b| == |multiset(b)| == 0;
    } else {
      assert a[0] in multiset(b);
      var k :| 0 <= k < |b| && b[k] == a[0];
      var rest := b[..k] + b[k + 1..];
      RemoveMatching(a, b, k);
      SumPermutation(a[1..], rest);
      SumRemove(b, k);
    }
  }

  /** Taking out a matching element keeps two equal multisets equal. */
  lemma RemoveMatching<T>(a: seq<T>, b: seq<T>, k: nat)
    requires multiset(a) == multiset(b) && a != [] && k < |b| && b[k] == a[0]
    ensures multiset(a[1..]) == multiset(b[..k] + b[k + 1..])
  {
    assert a == [a[0]] + a[1..];
    assert b == b[..k] + [b[k]] + b[k + 1..];
    assert multiset(a[1..]) == multiset(a) - multiset{a[0]};
    assert multiset(b) == multiset(b[..k]) + multiset{b[k]} + multiset(b[k + 1..]);
  }

  /** Taking one element out of a list takes its value out of the sum. */
  lemma {:induction false} SumRemove(s: seq<int>, k: nat)
    requires k < |s|
    ensures Sum(s) == s[k] + Sum(s[..k] + s[k + 1..])
  {
    if k > 0 {
      SumRemove(s[1..], k - 1);
      assert s[1..][..k - 1] + s[1..][k..] == (s[..k] + s[k + 1..])[1..];
    } else {
      assert s[..0] + s[1..] == s[1..];
    }
  }

  /** Statistics depend only on the multiset of prices, so reordering the
      items afterwards does not change them. */
  lemma StatisticsPermutation(a: seq<int>, b: seq<int>)
    requires multiset(a) == multiset(b)
    ensures CalculateStatistics(a) == CalculateStatistics(b)
  {
    if a != [] {
      assert b != [] by { assert |b| == |multiset(b)| == |multiset(a)| == |a|; }
      SumPermutation(a, b);
      assert |a| == |b| by { assert |multiset(a)| == |a| && |multiset(b)| == |b|; }
      assert forall p :: p in a <==> p in b by {
        forall p ensures p in a <==> p in b {
          assert p in a <==> p in multiset(a);
          assert p in b <==> p in multiset(b);
        }
      }
      assert Max(a) == Max(b) && Min(a) == Min(b);
    }
  }
}
