/**
  The result-collection half of `duckduckgo_search`.  The HTML request is
  not modelled (its outcome is an input), and neither is the HTML parser:
  the page arrives as the sequence of `.result` containers, each with its
  title anchor and snippet text already extracted.
 */
module Search {
  import opened Optional
  import opened Text
  import opened Sequences

  /** The `.result__title a` element: its text and its `href`, if any. */
  datatype Anchor = Anchor(text: string, href: Option<string>)

  /** One `.result` element: its title anchor, if any, and the text of its
      `.result__snippet` element, if any. */
  datatype Container = Container(anchor: Option<Anchor>, snippet: Option<string>)

  datatype SearchResult = SearchResult(title: string, url: string, description: string)

  /** The search request either raised (`message` is the exception's text)
      or returned a page: its status, the message `raise_for_status` gives
      for that status, and the containers in document order. */
  datatype SearchOutcome =
    | RequestFailed(message: string)
    | Page(status: int, statusMessage: string, containers: seq<Container>)

  const ErrorTitle := "Search error"

  /** The single record returned in place of results when the request
      fails: it carries the failure's message and, with its empty URL, can
      never be taken for a genuine hit. */
  function ErrorRecord(message: string): (r: SearchResult)
    ensures r.description == message
    ensures !WellFormed(r)
  {
    SearchResult(ErrorTitle, "", message)
  }

  /** A genuine hit: title and URL are non-empty and trimmed, and so is the
      description. */
  predicate WellFormed(r: SearchResult) {
    r.title != "" && r.url != "" && IsTrimmed(r.title) && IsTrimmed(r.url) && IsTrimmed(r.description)
  }

  /** The body of the collection loop for one container: no anchor, or an
      empty stripped title or URL, yields nothing. */
  function Entry(c: Container): (r: Option<SearchResult>)
    ensures r.Some? ==> c.anchor.Some? && WellFormed(r.value)
    ensures r.Some? ==>
              r.value == SearchResult(Strip(c.anchor.value.text), Strip(c.anchor.value.href.GetOr("")),
                                      Strip(c.snippet.GetOr("")))
  {
    match c.anchor
    case None => None
    case Some(a) =>
      var title := Strip(a.text);
      var url := Strip(a.href.GetOr(""));
      var description := Strip(c.snippet.GetOr(""));
      if title != "" && url != "" then Some(SearchResult(title, url, description)) else None
  }

  /** A container yields a hit exactly when it has an anchor whose stripped
      text and stripped `href` are non-empty, and that hit is well formed. */
  lemma EntryAdmits(c: Container)
    ensures Entry(c).Some? ==> WellFormed(Entry(c).value)
    ensures Entry(c).Some? <==>
              c.anchor.Some? && Strip(c.anchor.value.text) != "" && Strip(c.anchor.value.href.GetOr("")) != ""
  {
  }

  /** Every hit of the page is well formed, since each is some container's
      `Entry`. */
  lemma ExtractWellFormed(cs: seq<Container>)
    ensures forall k :: 0 <= k < |FilterMap(Entry, cs)| ==> WellFormed(FilterMap(Entry, cs)[k])
  {
    FilterMapIsSubsequence(Entry, cs);
    forall k | 0 <= k < |FilterMap(Entry, cs)|
      ensures WellFormed(FilterMap(Entry, cs)[k])
    {
      EntryAdmits(cs[Kept(Entry, cs)[k]]);
    }
  }

  /** Every hit of the page, in document order, with no limit. */
  function Extract(cs: seq<Container>): (hits: seq<SearchResult>)
    ensures |hits| <= |cs|
    ensures forall k :: 0 <= k < |hits| ==> WellFormed(hits[k])
  {
    ExtractWellFormed(cs);
    FilterMap(Entry, cs)
  }

  /** The collection loop: walk the containers in document order, stop as
      soon as `limit` hits have been gathered, skip containers that yield
      nothing. */
  method CollectResults(cs: seq<Container>, limit: int) returns (results: seq<SearchResult>)
    ensures results == Take(Extract(cs), limit)
    ensures limit <= 0 ==> results == []
    ensures |results| <= limit || results == []
    ensures forall k :: 0 <= k < |results| ==> WellFormed(results[k])
  {
    results := [];
    var i := 0;
    while i < |cs|
      invariant 0 <= i <= |cs|
      invariant results == Extract(cs[..i])
      invariant |results| <= limit || i == 0
    {
      if |results| >= limit {
        break;
      }
      FilterMapSnoc(Entry, cs, i);
      match Entry(cs[i]) {
        case Some(e) => results := results + [e];
        case None =>
      }
      i := i + 1;
    }
    FilterMapPrefix(Entry, cs, i);
    if i == |cs| {
      assert cs[..i] == cs;
    }
  }

  /** `duckduckgo_search` given the request's outcome: an empty list for a
      non-positive limit whatever the outcome, the error record for a failed
      request or a non-2xx status, the collected hits otherwise. */
  method DuckDuckGoSearch(limit: int, outcome: SearchOutcome) returns (results: seq<SearchResult>)
    ensures limit <= 0 ==> results == []
    ensures limit > 0 && outcome.RequestFailed? ==> results == [ErrorRecord(outcome.message)]
    ensures limit > 0 && outcome.Page? && !(200 <= outcome.status < 300) ==>
              results == [ErrorRecord(outcome.statusMessage)]
    ensures limit > 0 && outcome.Page? && 200 <= outcome.status < 300 ==>
              && results == Take(Extract(outcome.containers), limit)
              && |results| <= limit
              && forall k :: 0 <= k < |results| ==> WellFormed(results[k])
  {
    if limit <= 0 {
      return [];
    }
    match outcome
    case RequestFailed(message) =>
      results := [ErrorRecord(message)];
    case Page(status, statusMessage, containers) =>
      if !(200 <= status < 300) {
        results := [ErrorRecord(statusMessage)];
      } else {
        results := CollectResults(containers, limit);
      }
  }

  /** The hits are an order-preserving selection of the containers, and
      skipped containers are not counted: hit `k` comes from container
      `Kept(Entry, cs)[k]`, those indices increase, and every container that
      yields a hit is among them. */
  lemma HitsFollowDocumentOrder(cs: seq<Container>)
    ensures |Kept(Entry, cs)| == |Extract(cs)|
    ensures forall k :: 0 <= k < |Kept(Entry, cs)| ==>
              Kept(Entry, cs)[k] < |cs| && Entry(cs[Kept(Entry, cs)[k]]) == Some(Extract(cs)[k])
    ensures forall k, l :: 0 <= k < l < |Kept(Entry, cs)| ==> Kept(Entry, cs)[k] < Kept(Entry, cs)[l]
    ensures forall i :: 0 <= i < |cs| && Entry(cs[i]).Some? ==> i in Kept(Entry, cs)
  {
    FilterMapIsSubsequence(Entry, cs);
  }

  /** Fewer hits on the page than the limit means every hit is returned;
      otherwise exactly `limit` are. */
  lemma LimitOnlyCuts(cs: seq<Container>, limit: int)
    requires limit > 0
    ensures |Extract(cs)| <= limit ==> Take(Extract(cs), limit) == Extract(cs)
    ensures |Extract(cs)| > limit ==> |Take(Extract(cs), limit)| == limit
  {
  }
}
