/**
 * `fetch_wiki_page`: try the candidate URLs in order and keep the first
 * answer with status 200. The network is an oracle from request to outcome;
 * a transport error and a non-200 status both move on to the next URL.
 */
module Fetch {
  import opened Wrappers
  import opened Text
  import opened Endpoints

  /** What one `requests.get` produced: an exception, or a response whose JSON `content` field may be absent. */
  datatype Outcome =
    | RequestError
    | Response(status: int, text: string, content: Option<string>)

  datatype Request = Request(url: string, headers: map<string, string>)

  /** The result of a fetch, together with every request that was sent. */
  datatype Fetched = Fetched(result: Option<string>, requested: seq<Request>)

  type Oracle = Request -> Outcome

  const TokenHeader: string := "PRIVATE-TOKEN"

  /** Python truthiness of the optional token: neither `None` nor empty. */
  predicate Truthy(token: Option<string>) {
    token.Some? && token.value != ""
  }

  function Headers(token: Option<string>): (h: map<string, string>)
    ensures TokenHeader in h <==> Truthy(token)
    ensures TokenHeader in h ==> h[TokenHeader] == token.value
    ensures h.Keys <= {TokenHeader}
  {
    if Truthy(token) then map[TokenHeader := token.value] else map[]
  }

  predicate Succeeds(o: Outcome) {
    o.Response? && o.status == 200
  }

  /** The value returned for a successful URL: the JSON `content` field (default `""`) for API URLs, the body otherwise. */
  function SuccessValue(url: string, o: Outcome): (v: string)
    requires o.Response?
    ensures Contains(url, ApiMarker) && o.content.Some? ==> v == o.content.value
    ensures Contains(url, ApiMarker) && o.content.None? ==> v == ""
    ensures !Contains(url, ApiMarker) ==> v == o.text
  {
    if Contains(url, ApiMarker) then o.content.GetOr("") else o.text
  }

  /** The loop over the candidates, first success wins. */
  function TryUrls(urls: seq<string>, headers: map<string, string>, oracle: Oracle): (f: Fetched)
    ensures |f.requested| <= |urls|
    ensures forall k :: 0 <= k < |f.requested| ==> f.requested[k] == Request(urls[k], headers)
    ensures forall k :: 0 <= k < |f.requested| - 1 ==> !Succeeds(oracle(f.requested[k]))
    ensures f.result.Some? <==> |f.requested| > 0 && Succeeds(oracle(f.requested[|f.requested| - 1]))
    ensures f.result.Some? ==>
      f.result.value == SuccessValue(urls[|f.requested| - 1], oracle(Request(urls[|f.requested| - 1], headers)))
    ensures f.result.None? ==>
      |f.requested| == |urls| && forall k :: 0 <= k < |urls| ==> !Succeeds(oracle(Request(urls[k], headers)))
    decreases |urls|
  {
    if urls == [] then Fetched(None, [])
    else
      var req := Request(urls[0], headers);
      var o := oracle(req);
      if Succeeds(o) then Fetched(Some(SuccessValue(urls[0], o)), [req])
      else
        var rest := TryUrls(urls[1..], headers, oracle);
        Fetched(rest.result, [req] + rest.requested)
  }

  /** `fetch_wiki_page(repo, page, token)` against the oracle. */
  function FetchWikiPage(repo: string, page: string, token: Option<string>, oracle: Oracle): (f: Fetched)
    ensures |f.requested| <= 4
    ensures forall k :: 0 <= k < |f.requested| ==> f.requested[k] == Request(CandidateUrls(repo, page)[k], Headers(token))
    ensures f.result.None? ==> |f.requested| == 4
  {
    TryUrls(CandidateUrls(repo, page), Headers(token), oracle)
  }

  /**
   * The requests sent are the candidates up to and including the first
   * success, every one carrying the same headers; nothing after a success is
   * asked for, and when nothing succeeds all four were asked for.
   */
  lemma FetchShortCircuits(repo: string, page: string, token: Option<string>, oracle: Oracle, n: nat)
    requires n < 4
    requires Succeeds(oracle(Request(CandidateUrls(repo, page)[n], Headers(token))))
    requires forall k :: 0 <= k < n ==> !Succeeds(oracle(Request(CandidateUrls(repo, page)[k], Headers(token))))
    ensures var f := FetchWikiPage(repo, page, token, oracle);
      && f.requested == seq(n + 1, k requires 0 <= k <= n => Request(CandidateUrls(repo, page)[k], Headers(token)))
      && f.result == Some(SuccessValue(CandidateUrls(repo, page)[n], oracle(f.requested[n])))
  {
    var urls := CandidateUrls(repo, page);
    var f := FetchWikiPage(repo, page, token, oracle);
    assert |f.requested| > n;
    assert f.requested[n] == Request(urls[n], Headers(token));
    assert |f.requested| == n + 1;
  }

  /** When no candidate answers 200 the fetch reports `None` after asking all four. */
  lemma FetchAllFail(repo: string, page: string, token: Option<string>, oracle: Oracle)
    requires forall k :: 0 <= k < 4 ==> !Succeeds(oracle(Request(CandidateUrls(repo, page)[k], Headers(token))))
    ensures FetchWikiPage(repo, page, token, oracle).result.None?
    ensures |FetchWikiPage(repo, page, token, oracle).requested| == 4
  {
    var f := FetchWikiPage(repo, page, token, oracle);
    assert forall k :: 0 <= k < |f.requested| ==> !Succeeds(oracle(f.requested[k]));
  }

  /** A success on one of the first two candidates always yields the JSON `content` field. */
  lemma ApiCandidatesYieldContent(repo: string, page: string, token: Option<string>, oracle: Oracle)
    requires FetchWikiPage(repo, page, token, oracle).result.Some?
    requires |FetchWikiPage(repo, page, token, oracle).requested| <= 2
    ensures var f := FetchWikiPage(repo, page, token, oracle);
      f.result.value == oracle(f.requested[|f.requested| - 1]).content.GetOr("")
  {
  }

  /** Every request carries the `PRIVATE-TOKEN` header exactly when the token is truthy. */
  lemma TokenOnEveryRequest(repo: string, page: string, token: Option<string>, oracle: Oracle)
    ensures forall r :: r in FetchWikiPage(repo, page, token, oracle).requested ==>
      (TokenHeader in r.headers <==> Truthy(token))
  {
  }

  /** A page name without a space has its failing API URL requested twice in a row. */
  lemma FailingUrlRequestedTwice(repo: string, page: string, token: Option<string>, oracle: Oracle)
    requires ' ' !in page
    requires !Succeeds(oracle(Request(CandidateUrls(repo, page)[0], Headers(token))))
    ensures var f := FetchWikiPage(repo, page, token, oracle);
      |f.requested| >= 2 && f.requested[0] == f.requested[1]
  {
    CandidatesCoincide(repo, page);
  }
}
