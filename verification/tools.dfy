/**
  The two tools the server registers, `search` and `fetch`: argument
  defaults and positivity checks in front of `duckduckgo_search` and
  `http_fetch`.  The network is a parameter: `search` asks it for the page
  of a query, `fetch` for the outcome of a GET with the normalised timeout
  and redirect policy.
 */
module Tools {
  import opened Optional
  import opened Sequences
  import opened Fetch
  import opened Search

  const DefaultLimit := 5
  const DefaultMaxBytes := 200000
  const DefaultTimeoutMs := 15000

  /** `x if isinstance(x, int) and x > 0 else default`: a usable argument
      is kept, a missing or non-positive one gives way to the default. */
  function PositiveOr(arg: Option<int>, default: int): (r: int)
    requires default > 0
    ensures r > 0
    ensures arg.Some? && arg.value > 0 ==> r == arg.value
    ensures arg.None? || arg.value <= 0 ==> r == default
  {
    if arg.Some? && arg.value > 0 then arg.value else default
  }

  /** `bool(x) if x is not None else True`: redirects are followed unless
      the caller says otherwise. */
  function FollowRedirectsOr(arg: Option<bool>): (follow: bool)
    ensures arg.None? ==> follow
    ensures arg.Some? ==> follow == arg.value
  {
    match arg
    case None => true
    case Some(b) => b
  }

  /** The `search` tool.  The effective limit is always positive, so the
      request is always made; the answer is either the single error record
      or at most `limit` (default 5) genuine hits in document order. */
  method SearchTool(query: string, limit: Option<int>, transport: string -> SearchOutcome)
    returns (results: seq<SearchResult>)
    ensures var outcome := transport(query);
      && (outcome.RequestFailed? ==> results == [ErrorRecord(outcome.message)])
      && (outcome.Page? && !(200 <= outcome.status < 300) ==> results == [ErrorRecord(outcome.statusMessage)])
      && (outcome.Page? && 200 <= outcome.status < 300 ==>
            && results == Take(Extract(outcome.containers), PositiveOr(limit, DefaultLimit))
            && forall k :: 0 <= k < |results| ==> WellFormed(results[k]))
    ensures |results| <= PositiveOr(limit, DefaultLimit)
    ensures limit.None? ==> |results| <= DefaultLimit
  {
    var effectiveLimit := PositiveOr(limit, DefaultLimit);
    results := DuckDuckGoSearch(effectiveLimit, transport(query));
  }

  /** The `fetch` tool.  The transport is asked with the normalised timeout
      and redirect policy; the byte ceiling is always positive. */
  function FetchTool(
    url: string,
    maxBytes: Option<int>,
    timeoutMs: Option<int>,
    followRedirects: Option<bool>,
    transport: (string, int, bool) -> Outcome,
    codecs: Codecs): (r: FetchResult)
    ensures r.url == url
    ensures var outcome := transport(url, PositiveOr(timeoutMs, DefaultTimeoutMs), FollowRedirectsOr(followRedirects));
      && (outcome.TransportError? ==>
            && r.status == 0 && r.finalUrl == url && r.headers == map[] && r.body == outcome.message
            && r.contentType.None? && r.encoding.None? && !r.truncated)
      && (outcome.Responded? ==>
            var resp := outcome.response;
            var ceiling := PositiveOr(maxBytes, DefaultMaxBytes);
            var encoding := ParseCharset(resp.contentType);
            && r.status == resp.status && r.finalUrl == resp.finalUrl && r.headers == resp.headers
            && r.contentType == resp.contentType
            && (r.truncated <==> |resp.content| > ceiling)
            && (IsBinary(resp.contentType) ==> r.body == UnsupportedBody && r.encoding == encoding)
            && (!IsBinary(resp.contentType) ==>
                  var kept := resp.content[..Min(|resp.content|, ceiling)];
                  var first := codecs.decode(kept, AttemptCharset(encoding));
                  && (first.Some? ==> r.body == first.value && r.encoding == encoding)
                  && (first.None? ==> r.body == codecs.utf8(kept))
                  && (first.None? && encoding.Some? && encoding.value != "" ==> r.encoding == encoding)
                  && (first.None? && (encoding.None? || encoding.value == "") ==> r.encoding == Some(Utf8))))
  {
    var timeout := PositiveOr(timeoutMs, DefaultTimeoutMs);
    var follow := FollowRedirectsOr(followRedirects);
    var outcome := transport(url, timeout, follow);
    var ceiling := PositiveOr(maxBytes, DefaultMaxBytes);
    assert outcome.Responded? ==>
      Truncate(outcome.response.content, ceiling).0 == outcome.response.content[..Min(|outcome.response.content|, ceiling)];
    HttpFetch(url, ceiling, outcome, codecs)
  }

  /** Through the tool a text body without a charset is the utf-8 decoding
      of the first `min(length, ceiling)` bytes, and the encoding stays
      unreported. */
  lemma ToolDecodesPrefix(
    url: string,
    maxBytes: Option<int>,
    timeoutMs: Option<int>,
    followRedirects: Option<bool>,
    transport: (string, int, bool) -> Outcome,
    codecs: Codecs)
    requires Coherent(codecs)
    requires var outcome := transport(url, PositiveOr(timeoutMs, DefaultTimeoutMs), FollowRedirectsOr(followRedirects));
      outcome.Responded? && !IsBinary(outcome.response.contentType)
      && ParseCharset(outcome.response.contentType).None?
    ensures var content := transport(url, PositiveOr(timeoutMs, DefaultTimeoutMs), FollowRedirectsOr(followRedirects)).response.content;
      var ceiling := PositiveOr(maxBytes, DefaultMaxBytes);
      var r := FetchTool(url, maxBytes, timeoutMs, followRedirects, transport, codecs);
      && r.body == codecs.utf8(content[..Min(|content|, ceiling)])
      && r.encoding.None?
  {
    var resp := transport(url, PositiveOr(timeoutMs, DefaultTimeoutMs), FollowRedirectsOr(followRedirects)).response;
    var ceiling := PositiveOr(maxBytes, DefaultMaxBytes);
    NoCharsetDecodesUtf8(url, ceiling, resp, codecs);
    assert Truncate(resp.content, ceiling).0 == resp.content[..Min(|resp.content|, ceiling)];
  }
}
