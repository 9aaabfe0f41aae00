# python-web-search: fetch and search post-processing in Dafny

A model of the two tools of the `python-web-search` MCP server, `search`
(DuckDuckGo HTML scraping) and `fetch` (HTTP GET with a size ceiling),
reduced to the logic that runs once the network has answered. The HTTP
client, the HTML parser and the text codecs are inputs, so what remains is
pure logic:

- **Fetch** (`http_fetch`). This covers:
  - parsing the `charset=` parameter of the content-type;
  - cutting the body at `max_bytes`;
  - classifying the content-type as binary or text;
  - decoding text with a utf-8 fallback;
  - the uniform result record, including the fixed status-0 failure record.
- **Search** (`duckduckgo_search`). This covers:
  - the early exit for a non-positive limit;
  - the single `"Search error"` record when the request fails or the status is not 2xx;
  - the collection loop over the page's `.result` containers in document order.
- **Tools** (`search` and `fetch`). Defaults and positivity checks for
  `limit`, `max_bytes` and `timeout_ms`, and the default for `follow_redirects`.

Modules:

| file | module | contents |
|---|---|---|
| options.dfy | `Optional` | `Option` (Python's `None`-or-value) |
| text.dfy | `Text` | Python `str.strip`, `lower`, `startswith`, `split(c)`, `split(c, 1)` and their laws |
| sequences.dfy | `Sequences` | order-preserving filter-and-map with an early cut (`FilterMap`, `Kept`, `Take`) |
| fetch.dfy | `Fetch` | `http_fetch` after the request |
| search.dfy | `Search` | `duckduckgo_search` after the request |
| tools.dfy | `Tools` | the `search` and `fetch` tool wrappers |

The outside world enters as parameters:

- `Fetch.Outcome` is either the exception text of a failed request or a
  response: status, content-type header value, raw bytes, final URL and headers.
- `Search.SearchOutcome` is either the exception text or a page: its status,
  the message `raise_for_status` gives for that status, and the `.result`
  containers with their title anchor and snippet text already extracted.
- `Fetch.Codecs` is Python's `bytes.decode(charset, errors="replace")`.
  - Its `decode` yields `None` where Python raises (an unknown charset).
  - Its `utf8` is the utf-8 decoding, which never raises.
  - `Coherent` says asking `decode` for utf-8 gives that same decoding.
- The tools take the network as a function. `fetch` passes it the URL and
  the normalised timeout and redirect policy; `search` passes it the query.

Facts about `mcp_server.py` that the model makes explicit:

- `limit` is used as given once it is positive (mcp_server.py:32, 75, 208). Nothing caps it.
- The HTTP client sets only a timeout (mcp_server.py:21). Redirects are followed as `follow_redirects` says, with the client library's own limits, and proxies come from the environment.
- The `encoding = "utf-8"` assignment (mcp_server.py:174-175) runs only when the first decode at line 171 raised and no charset was parsed (`encoding` missing or empty). In that case line 171 decoded as utf-8 with `errors="replace"`, which never raises, so the assignment never runs. It is modelled as written, as a branch of `Fetch.DecodeText`. With coherent codecs the reported encoding is always the parsed charset (`Fetch.ReportedEncodingIsParsed`).
- `http_fetch` accepts any integer `max_bytes` (mcp_server.py:151-152). Only the `fetch` tool makes it positive (mcp_server.py:225). A negative one slices from the end, as Python's `b[:n]` does (`Fetch.SliceTo`).
- `if not encoding` (mcp_server.py:174) and `encoding or "utf-8"` (mcp_server.py:169) are also true for an empty charset (`charset=`). Such a charset is tried as utf-8 and reported as the empty string.

## Model

| member | source | states |
|---|---|---|
| Text.IsSpace | mcp_server.py:84-86 | the characters `str.strip()` removes, the ones `str.isspace()` accepts, written as ranges; `Text.IsSpaceTable` checks them against the list |
| Text.IsSpaceTable | mcp_server.py:84-86 | the ranges in `IsSpace` hold exactly the 29 listed white-space characters: U+0009-U+000D, U+001C-U+0020, U+0085, U+00A0, U+1680, U+2000-U+200A, U+2028, U+2029, U+202F, U+205F, U+3000 |
| Text.Strip | mcp_server.py:84-86 | the stripped text is no longer than the input and has no white space at either end |
| Text.Lower | mcp_server.py:145 | `lower()`: the same length, each character lowered on its own (ASCII letters only) |
| Text.StartsWith | mcp_server.py:145 | `startswith(p)`: true iff `p` is no longer than the string and agrees with it character by character |
| Text.StripRemovesOnlySpace | mcp_server.py:144 | stripping removes white space only, and only at the ends: input = leading white space + result + trailing white space |
| Text.StripTrimmed | mcp_server.py:144 | a string with no white space at either end is its own strip, so stripping is idempotent |
| Text.Split | mcp_server.py:142 | `split(";")` always gives at least one piece; JoinSplit, SplitPiecesFree and SplitJoin characterise the pieces |
| Text.LowerKeepsPrefix | mcp_server.py:155-163 | lower-casing keeps a prefix that has no upper-case letters, as the binary prefixes and `application/octet-stream` are |
| Text.JoinSplit | mcp_server.py:142 | joining the pieces of `split(";")` with `;` gives back the content-type |
| Text.SplitPiecesFree | mcp_server.py:142 | no piece of `split(";")` contains `;` |
| Text.SplitJoin | mcp_server.py:142 | splitting a join of separator-free pieces gives back exactly those pieces |
| Text.SplitOnce | mcp_server.py:146 | `split("=", 1)` cuts the string into before + `=` + after, with no `=` before |
| Text.SplitOnceAt | mcp_server.py:146 | `split("=", 1)` cuts at the first `=` and nowhere else |
| Fetch.CharsetFirstEquals | mcp_server.py:145-146 | in a parameter that starts with `charset=` (any case), the text after the first `=` is the text after that prefix |
| Fetch.IsCharsetParam | mcp_server.py:144-145 | a parameter that passes the `charset=` test is, once stripped, at least eight characters long with `=` in eighth place |
| Fetch.CharsetParam | mcp_server.py:144-146 | a parameter yields a charset iff, stripped and lower-cased, it starts with `charset=`; the charset is the stripped, lower-cased text after that prefix |
| Sequences.FirstSome | mcp_server.py:143-147 | the loop that stops at the first match: none iff no element matches, otherwise the image of a matching element with no match before it |
| Fetch.ParametersCharset | mcp_server.py:142-147 | for the pieces of `content_type.split(";")`: no charset iff no piece after the first is a charset parameter, else the charset of the first such piece |
| Fetch.ParseCharset | mcp_server.py:137-147 | a missing or empty content-type gives no encoding. Otherwise only the segments after the first `;` count: no encoding iff none is a charset parameter, else the charset of the first one that is |
| Fetch.NoParametersNoCharset | mcp_server.py:142-143 | a content-type without `;` yields no encoding, even if it says `charset=` |
| Fetch.FirstParameterCharset | mcp_server.py:140-147 | a media type followed by parameters whose first is `charset=…` reports that parameter's value |
| Fetch.SliceTo | mcp_server.py:152 | Python's `b[:n]`: a prefix of the bytes, of length `min(n, len)` for `n >= 0` and `max(0, len + n)` for negative `n` |
| Fetch.Truncate | mcp_server.py:149-153 | `truncated` iff the body is longer than `max_bytes`. The kept bytes are a prefix of the body: `min(len, max_bytes)` of them for `max_bytes >= 0`, and all but the last `-max_bytes` (none if that is more than the body) for negative `max_bytes`. The body is untouched when not truncated |
| Fetch.IsBinary | mcp_server.py:155-164 | a binary content-type is present and at least as long as the shortest binary prefix, `image/` |
| Fetch.BinaryByPrefixTable | mcp_server.py:155-164 | binary iff the content-type is present and, lower-cased, starts with `image/`, `audio/`, `video/`, `application/pdf`, `application/zip` or `application/x-`, or is exactly `application/octet-stream` |
| Fetch.BinaryPrefixExtends | mcp_server.py:157-162 | a content-type that starts with a binary prefix is binary whatever follows, so `image/png; charset=x` stays binary |
| Fetch.BinaryIgnoresCase | mcp_server.py:155-164 | binary classification gives the same answer for a content-type and its lower-cased form |
| Fetch.TextWithoutContentType | mcp_server.py:155-164 | a missing or empty content-type is never binary |
| Fetch.OctetStreamOnlyExact | mcp_server.py:155-164 | `application/octet-stream` followed by anything, a parameter in particular, is classified as text; only the exact string is binary |
| Fetch.AttemptCharset | mcp_server.py:169 | the first decode uses the parsed charset when it is non-empty, utf-8 otherwise |
| Fetch.DecodeText | mcp_server.py:168-175 | a known charset decodes the body and keeps the encoding. An unknown one falls back to the utf-8 decoding. A non-empty parsed charset is always reported. A failed first attempt with a missing or empty charset reports `utf-8`. The encoding changes only to `utf-8`, and only when the utf-8 decode itself failed |
| Fetch.HttpFetch | mcp_server.py:117-191 | `url` is always the input. A transport error gives status 0, `final_url` = url, empty headers, no content-type or encoding, not truncated, and the error text as body. A response gives its status, final URL, headers and content-type. `truncated` iff the body exceeds the ceiling. A binary type gives the body "Unsupported content-type" and the parsed encoding. Text is decoded from the kept bytes only: with the attempted charset when it is known, reporting the parsed encoding; with utf-8 otherwise, reporting the parsed encoding if non-empty and `utf-8` if not |
| Fetch.StatusZeroMeansTransportError | mcp_server.py:123-133 | for responses with a non-zero HTTP status, the result status is 0 iff the request raised |
| Fetch.ReportedEncodingIsParsed | mcp_server.py:168-175 | with coherent codecs the reported encoding is always the charset parsed from the content-type; a missing charset stays missing |
| Fetch.NoCharsetDecodesUtf8 | mcp_server.py:168-171 | with no charset, a text body is the utf-8 decoding of the kept bytes and no encoding is reported |
| Fetch.UnknownCharsetFallsBack | mcp_server.py:170-175 | a charset Python does not know still appears as the encoding, and the body is the utf-8 decoding |
| Fetch.TruncatedToCeiling | mcp_server.py:149-153 | a body longer than a non-negative ceiling is flagged as truncated, and exactly the first `max_bytes` bytes are decoded |
| Fetch.WholeDocument | mcp_server.py:149-191 | a text document within the ceiling, in a charset Python knows, comes back untruncated as exactly its decoded text, with that charset reported |
| Search.EntryAdmits | mcp_server.py:78-95 | a container yields a hit iff it has a title anchor whose stripped text and stripped href are both non-empty; every hit is well formed |
| Search.Entry | mcp_server.py:78-95 | a container yields a hit only if it has a title anchor; the hit's title, URL and description are the stripped anchor text, stripped `href` and stripped snippet text, and it is well formed |
| Search.Extract | mcp_server.py:74-95 | every hit of the page has a non-empty, trimmed title and URL and a trimmed description; there are no more hits than containers |
| Search.CollectResults | mcp_server.py:74-97 | the loop returns the first `limit` hits in document order, none when `limit <= 0`, never more than `limit`, all well formed |
| Search.DuckDuckGoSearch | mcp_server.py:32-97 | `limit <= 0` gives an empty list whatever the request's outcome. A raised request, or a non-2xx status through `raise_for_status`, gives the single record ("Search error", "", message). Otherwise the first `limit` well-formed hits |
| Search.ErrorRecord | mcp_server.py:61-67 | the error record carries the failure's message and has an empty URL, so it can never be taken for a genuine hit |
| Search.HitsFollowDocumentOrder | mcp_server.py:74-95 | hit k comes from container `Kept[k]`, those indices strictly increase, and every container that yields a hit is among them, so skipped containers are not counted |
| Search.LimitOnlyCuts | mcp_server.py:75-76 | with no more hits than the limit every hit is returned; with more, exactly `limit` are |
| Sequences.FilterMapIsSubsequence | mcp_server.py:74-95 | a filtered-and-mapped sequence is an order-preserving subsequence of the input's images that misses no kept element |
| Sequences.FilterMapPrefix | mcp_server.py:74-76 | stopping the loop early yields a prefix of what the full loop would collect |
| Sequences.FilterMap | mcp_server.py:74-95 | the loop body applied to every container, keeping what it yields: never more results than containers |
| Sequences.Take | mcp_server.py:75-76 | the cut at `limit`: a prefix of the hits, of length `min(limit, len)` and 0 for a non-positive limit |
| Tools.PositiveOr | mcp_server.py:208-226 | an effective `limit`, `max_bytes` or `timeout_ms` is always positive: the argument when it is present and positive, the default (5, 200000, 15000) otherwise |
| Tools.FollowRedirectsOr | mcp_server.py:227 | redirects are followed when the argument is missing, and otherwise as the argument says |
| Tools.SearchTool | mcp_server.py:201-210 | at most `limit` results (5 when missing). Either the single error record, or well-formed hits in document order |
| Tools.FetchTool | mcp_server.py:213-234 | the transport is asked with the normalised timeout and redirect policy. `url` is the input. A transport error gives status 0, `final_url` = url, empty headers, no content-type or encoding, not truncated, and the error text as body. A response gives its status, final URL, headers and content-type; `truncated` iff the body exceeds the effective ceiling; a binary type gives the unsupported-content body and the parsed encoding; text is the decoding of the first `min(len, ceiling)` bytes, with the same charset choice and reported encoding as `http_fetch` |
| Tools.ToolDecodesPrefix | mcp_server.py:225-234 | through the tool, a text body without a charset is the utf-8 decoding of the first `min(len, ceiling)` bytes, with no encoding reported |

## Left out

- HTTP client creation, the GET requests, timeouts, redirect following and proxy handling from environment variables (mcp_server.py:15-21, 35-57, 114-122, 134-135). This is network I/O. The request's result is an input (`Fetch.Outcome`, `Search.SearchOutcome`); the tools take the transport as a function.
- `timeout_ms / 1000.0` (mcp_server.py:114). It is float arithmetic that only feeds the HTTP layer. The tool passes the integer timeout to the transport.
- HTML parsing and CSS selection with BeautifulSoup, and the decoding of the page into `resp.text` (mcp_server.py:71, 74, 78-79). This is a foreign library. The page is the sequence of `.result` containers with their anchor text, `href` and snippet text.
- The byte-to-text decoding itself (mcp_server.py:171, 173). It is a parameter (`Fetch.Codecs`).
- The `content-type` header lookup and `dict(resp.headers)` (mcp_server.py:137, 180). Case-insensitive lookup and the joining of repeated headers happen in the client library. The response carries the looked-up value and the headers as an opaque map.
- `str(resp.url)` and `str(e)` (mcp_server.py:131, 177, 65). The final URL and the messages are given as strings.
- The `{"results": ...}` wrapper of the search tool (mcp_server.py:210). `Tools.SearchTool` returns the list itself.
- Python's `bool` being a subclass of `int` (`isinstance(True, int)`). Tool arguments are `Option<int>` and `Option<bool>`, as the tool schemas declare.
- FastMCP tool registration, the SSE app and the uvicorn `main` (mcp_server.py:198-201, 213, 237-254). This is RPC and server plumbing.
- Text.Lower: lowers ASCII letters only. Python's `str.lower` also lowers other letters, so a charset name with non-ASCII capitals is reported differently. The `charset=` test and the binary prefixes are ASCII and unaffected.
