/**
  The post-processing half of `http_fetch`: everything that happens once the
  HTTP client has either raised or handed back a response.  The request
  itself is not modelled; its outcome is an input.
 */
module Fetch {
  import opened Optional
  import opened Text
  import opened Sequences

  type Byte = bv8

  /** Response headers, passed through to the caller untouched. */
  type Headers = map<string, string>

  /** What the client returned: the status code, the value of the
      `content-type` header if any, the raw body, the URL after redirects
      and the headers. */
  datatype Response = Response(
    status: int,
    contentType: Option<string>,
    content: seq<Byte>,
    finalUrl: string,
    headers: Headers)

  /** The request either raised (DNS, connect, timeout, proxy: `message` is
      the exception's text) or produced a response, whatever its status. */
  datatype Outcome = TransportError(message: string) | Responded(response: Response)

  /** The record `http_fetch` returns. */
  datatype FetchResult = FetchResult(
    url: string,
    finalUrl: string,
    status: int,
    contentType: Option<string>,
    encoding: Option<string>,
    headers: Headers,
    body: string,
    truncated: bool)

  /** Python's `bytes.decode(charset, errors="replace")`: `decode` yields
      `None` where Python raises (an unknown charset); `utf8` is the utf-8
      decoding, which with replacement never raises. */
  datatype Codecs = Codecs(decode: (seq<Byte>, string) -> Option<string>, utf8: seq<Byte> -> string)

  /** Asking `decode` for utf-8 is the utf-8 decoding, so it never fails. */
  ghost predicate Coherent(codecs: Codecs) {
    forall b :: codecs.decode(b, Utf8) == Some(codecs.utf8(b))
  }

  const Utf8 := "utf-8"
  const CharsetPrefix := "charset="
  const UnsupportedBody := "Unsupported content-type"
  const OctetStream := "application/octet-stream"

  // ---------------------------------------------------------------------------
  // Charset parameter

  /** A content-type parameter names the charset when, stripped of white
      space and lower-cased, it begins with `charset=`. */
  predicate IsCharsetParam(p: string)
    ensures IsCharsetParam(p) ==> |Strip(p)| >= |CharsetPrefix| && Strip(p)[|CharsetPrefix| - 1] == '='
  {
    var q := Strip(p);
    CharsetPrefixShape(q);
    StartsWith(Lower(q), CharsetPrefix)
  }

  /** Lower-casing changes neither the length nor an `=`: a string whose
      lower-cased form starts with `charset=` has `=` in eighth place. */
  lemma CharsetPrefixShape(q: string)
    ensures StartsWith(Lower(q), CharsetPrefix) ==> |q| >= |CharsetPrefix| && q[|CharsetPrefix| - 1] == '='
  {
    if StartsWith(Lower(q), CharsetPrefix) {
      assert Lower(q)[..|CharsetPrefix|][|CharsetPrefix| - 1] == '=';
      assert LowerChar(q[|CharsetPrefix| - 1]) == '=';
    }
  }

  /** In a stripped parameter that passes `IsCharsetParam`, the first `=` is
      the one ending the `charset=` prefix. */
  lemma CharsetFirstEquals(q: string)
    requires StartsWith(Lower(q), CharsetPrefix)
    ensures '=' in q
    ensures SplitOnce(q, '=').1 == q[|CharsetPrefix|..]
  {
    var k := |CharsetPrefix| - 1;
    assert Lower(q)[k] == '=';
    assert q[k] == '=';
    forall i | 0 <= i < k
      ensures q[i] != '='
    {
      assert Lower(q)[i] == CharsetPrefix[i];
    }
    assert '=' !in q[..k] by {
      forall i | 0 <= i < k
        ensures q[..k][i] != '='
      {
        assert q[..k][i] == q[i];
      }
    }
    SplitOnceAt(q, '=', k);
  }

  /** One content-type parameter: the charset it names, if it is a charset
      parameter.  The value is Python's `p.split("=", 1)[1].strip().lower()`
      on the stripped parameter, which is the text after `charset=`. */
  function CharsetParam(p: string): (v: Option<string>)
    ensures v.Some? <==> IsCharsetParam(p)
    ensures v.Some? ==> v.value == Lower(Strip(Strip(p)[|CharsetPrefix|..]))
  {
    if IsCharsetParam(p) then
      var q := Strip(p);
      CharsetFirstEquals(q);
      Some(Lower(Strip(SplitOnce(q, '=').1)))
    else None
  }

  /** The charset named by the parts of a content-type split at `;`: the
      first part is the media type and is never looked at; among the rest the
      first charset parameter decides. */
  function ParametersCharset(parts: seq<string>): (encoding: Option<string>)
    requires |parts| >= 1
    ensures encoding.None? <==> forall i :: 1 <= i < |parts| ==> CharsetParam(parts[i]).None?
    ensures encoding.Some? ==> exists i :: FirstSomeAt(CharsetParam, parts[1..], i, encoding.value)
  {
    FirstSomeAfterHead(CharsetParam, parts);
    FirstSome(CharsetParam, parts[1..])
  }

  /** The `encoding` `http_fetch` reports before decoding: only the segments
      after the first `;` of the content-type are looked at, and the first
      one that is a charset parameter decides. */
  function ParseCharset(contentType: Option<string>): (encoding: Option<string>)
    ensures contentType.None? ==> encoding.None?
    ensures contentType.Some? ==>
      var parts := Split(contentType.value, ';');
      && (encoding.None? <==> forall i :: 1 <= i < |parts| ==> CharsetParam(parts[i]).None?)
      && (encoding.Some? ==> exists i :: FirstSomeAt(CharsetParam, parts[1..], i, encoding.value))
  {
    if contentType.None? || contentType.value == "" then
      assert contentType.Some? ==> Split(contentType.value, ';') == [""];
      None
    else
      ParametersCharset(Split(contentType.value, ';'))
  }

  // ---------------------------------------------------------------------------
  // Truncation

  function Min(a: int, b: int): int { if a <= b then a else b }
  function Max(a: int, b: int): int { if a >= b then a else b }

  /** Python's `b[:n]`: the first `n` bytes, or all but the last `-n` when
      `n` is negative. */
  function SliceTo(b: seq<Byte>, n: int): (r: seq<Byte>)
    ensures |r| <= |b| && r == b[..|r|]
    ensures 0 <= n ==> |r| == Min(n, |b|)
    ensures n < 0 ==> |r| == Max(0, |b| + n)
  {
    if 0 <= n then (if n < |b| then b[..n] else b)
    else if |b| + n > 0 then b[..|b| + n] else []
  }

  /** The byte ceiling: the kept bytes and whether any were dropped. */
  function Truncate(raw: seq<Byte>, maxBytes: int): (r: (seq<Byte>, bool))
    ensures r.1 <==> |raw| > maxBytes
    ensures |r.0| <= |raw| && r.0 == raw[..|r.0|]
    ensures 0 <= maxBytes ==> |r.0| == Min(|raw|, maxBytes)
    ensures maxBytes < 0 ==> |r.0| == Max(0, |raw| + maxBytes)
    ensures !r.1 ==> r.0 == raw
  {
    if |raw| > maxBytes then (SliceTo(raw, maxBytes), true) else (raw, false)
  }

  // ---------------------------------------------------------------------------
  // Binary classification

  /** The content-type, lower-cased, names an image, audio, video, PDF, zip
      or `application/x-` type, or is exactly `application/octet-stream`.
      A missing content-type counts as the empty string. */
  predicate IsBinary(contentType: Option<string>)
    ensures IsBinary(contentType) ==> contentType.Some? && |contentType.value| >= |"image/"|
  {
    var ct := Lower(contentType.GetOr(""));
    || StartsWith(ct, "image/")
    || StartsWith(ct, "audio/")
    || StartsWith(ct, "video/")
    || StartsWith(ct, "application/pdf")
    || StartsWith(ct, "application/zip")
    || StartsWith(ct, "application/x-")
    || ct == OctetStream
  }

  /** The prefixes that make a content-type binary. */
  const BinaryPrefixes: seq<string> :=
    ["image/", "audio/", "video/", "application/pdf", "application/zip", "application/x-"]

  /** The classification as a table: a content-type is binary exactly when it
      is present and, lower-cased, starts with one of `BinaryPrefixes` or is
      exactly `application/octet-stream`. */
  lemma BinaryByPrefixTable(contentType: Option<string>)
    ensures IsBinary(contentType) <==>
      && contentType.Some?
      && ((exists k :: 0 <= k < |BinaryPrefixes| && StartsWith(Lower(contentType.value), BinaryPrefixes[k]))
          || Lower(contentType.value) == OctetStream)
  {
    var ct := Lower(contentType.GetOr(""));
    if IsBinary(contentType) {
      assert contentType.Some?;
      if !(ct == OctetStream) {
        if StartsWith(ct, "image/") { assert StartsWith(ct, BinaryPrefixes[0]); }
        else if StartsWith(ct, "audio/") { assert StartsWith(ct, BinaryPrefixes[1]); }
        else if StartsWith(ct, "video/") { assert StartsWith(ct, BinaryPrefixes[2]); }
        else if StartsWith(ct, "application/pdf") { assert StartsWith(ct, BinaryPrefixes[3]); }
        else if StartsWith(ct, "application/zip") { assert StartsWith(ct, BinaryPrefixes[4]); }
        else { assert StartsWith(ct, BinaryPrefixes[5]); }
      }
    }
  }

  // ---------------------------------------------------------------------------
  // Decoding

  /** The charset of the first decoding attempt: the parsed one, or utf-8
      when there is none (Python's `encoding or "utf-8"`: an empty charset
      counts as none). */
  function AttemptCharset(encoding: Option<string>): (charset: string)
    ensures encoding.Some? && encoding.value != "" ==> charset == encoding.value
    ensures encoding.None? || encoding.value == "" ==> charset == Utf8
  {
    if encoding.Some? && encoding.value != "" then encoding.value else Utf8
  }

  /** Decodes a text body: with the attempted charset if it is known, with
      utf-8 otherwise.  Returns the text and the encoding to report. */
  function DecodeText(bytes: seq<Byte>, encoding: Option<string>, codecs: Codecs): (r: (string, Option<string>))
    ensures codecs.decode(bytes, AttemptCharset(encoding)).Some? ==>
              r == (codecs.decode(bytes, AttemptCharset(encoding)).value, encoding)
    ensures codecs.decode(bytes, AttemptCharset(encoding)).None? ==> r.0 == codecs.utf8(bytes)
    ensures encoding.Some? && encoding.value != "" ==> r.1 == encoding
    ensures r.1 != encoding ==> r.1 == Some(Utf8) && codecs.decode(bytes, Utf8).None?
    ensures codecs.decode(bytes, AttemptCharset(encoding)).None? && (encoding.None? || encoding.value == "") ==>
              r.1 == Some(Utf8)
  {
    var charset := AttemptCharset(encoding);
    match codecs.decode(bytes, charset)
    case Some(text) => (text, encoding)
    case None =>
      var reported := if encoding.None? || encoding.value == "" then Some(Utf8) else encoding;
      (codecs.utf8(bytes), reported)
  }

  // ---------------------------------------------------------------------------
  // The result record

  /** `http_fetch` after the request: a fixed failure record when the client
      raised, otherwise the response's status, headers and final URL with a
      truncated, classified and decoded body. */
  function HttpFetch(url: string, maxBytes: int, outcome: Outcome, codecs: Codecs): (r: FetchResult)
    ensures r.url == url
    ensures outcome.TransportError? ==>
      && r.status == 0 && r.finalUrl == url && r.headers == map[]
      && r.contentType.None? && r.encoding.None? && !r.truncated
      && r.body == outcome.message
    ensures outcome.Responded? ==>
      var resp := outcome.response;
      && r.status == resp.status && r.finalUrl == resp.finalUrl && r.headers == resp.headers
      && r.contentType == resp.contentType
      && (r.truncated <==> |resp.content| > maxBytes)
      && (IsBinary(resp.contentType) ==> r.body == UnsupportedBody && r.encoding == ParseCharset(resp.contentType))
      && (!IsBinary(resp.contentType) ==>
            var kept := Truncate(resp.content, maxBytes).0;
            var encoding := ParseCharset(resp.contentType);
            var first := codecs.decode(kept, AttemptCharset(encoding));
            && (first.Some? ==> r.body == first.value && r.encoding == encoding)
            && (first.None? ==> r.body == codecs.utf8(kept))
            && (first.None? && encoding.Some? && encoding.value != "" ==> r.encoding == encoding)
            && (first.None? && (encoding.None? || encoding.value == "") ==> r.encoding == Some(Utf8)))
  {
    match outcome
    case TransportError(message) =>
      FetchResult(url, url, 0, None, None, map[], message, false)
    case Responded(resp) =>
      var encoding := ParseCharset(resp.contentType);
      var (kept, truncated) := Truncate(resp.content, maxBytes);
      var (body, reported) :=
        if IsBinary(resp.contentType) then (UnsupportedBody, encoding)
        else DecodeText(kept, encoding, codecs);
      FetchResult(url, resp.finalUrl, resp.status, resp.contentType, reported, resp.headers, body, truncated)
  }

  // ---------------------------------------------------------------------------
  // Properties

  /** Classification ignores case: a content-type and its lower-cased form
      are classified alike. */
  lemma BinaryIgnoresCase(s: string)
    ensures IsBinary(Some(s)) <==> IsBinary(Some(Lower(s)))
  {
    LowerIdempotent(s);
  }

  /** A missing or empty content-type is text. */
  lemma TextWithoutContentType()
    ensures !IsBinary(None) && !IsBinary(Some(""))
  {
  }

  /** Only the exact string `application/octet-stream` is binary: with
      anything appended, a parameter in particular, it is text. */
  lemma OctetStreamOnlyExact(t: string)
    requires t != []
    ensures !IsBinary(Some(OctetStream + t))
  {
    LowerKeepsPrefix(OctetStream, t);
    var ct := Lower(OctetStream + t);
    assert ct[..|OctetStream|] == OctetStream;
    assert ct[0] == 'a' && ct[1] == 'p' && ct[12] == 'o';
    assert !StartsWith(ct, "image/") && !StartsWith(ct, "video/") by {
      assert ct[..6][0] == 'a';
    }
    assert !StartsWith(ct, "audio/") by {
      assert ct[..6][1] == 'p';
    }
    assert !StartsWith(ct, "application/pdf") && !StartsWith(ct, "application/zip") by {
      assert ct[..15][12] == 'o';
    }
    assert !StartsWith(ct, "application/x-") by {
      assert ct[..14][12] == 'o';
    }
    assert |ct| != |OctetStream|;
  }

  /** A binary prefix stays binary whatever follows it, so parameters such
      as `image/png; charset=x` do not make an image text. */
  lemma BinaryPrefixExtends(k: nat, t: string)
    requires k < |BinaryPrefixes|
    ensures IsBinary(Some(BinaryPrefixes[k] + t))
  {
    var p := BinaryPrefixes[k];
    assert forall i :: 0 <= i < |p| ==> !('A' <= p[i] <= 'Z');
    LowerKeepsPrefix(p, t);
    assert StartsWith(Lower(p + t), p);
  }

  /** A real HTTP status is never 0, so status 0 tells a transport failure
      apart from every response. */
  lemma StatusZeroMeansTransportError(url: string, maxBytes: int, outcome: Outcome, codecs: Codecs)
    requires outcome.Responded? ==> outcome.response.status != 0
    ensures HttpFetch(url, maxBytes, outcome, codecs).status == 0 <==> outcome.TransportError?
  {
  }

  /** With coherent codecs the decoding fallback never changes the reported
      encoding: it is always the charset parsed from the content-type, so
      a missing charset stays missing. */
  lemma ReportedEncodingIsParsed(url: string, maxBytes: int, resp: Response, codecs: Codecs)
    requires Coherent(codecs)
    ensures HttpFetch(url, maxBytes, Responded(resp), codecs).encoding == ParseCharset(resp.contentType)
  {
    var encoding := ParseCharset(resp.contentType);
    var kept := Truncate(resp.content, maxBytes).0;
    if encoding.None? || encoding.value == "" {
      assert codecs.decode(kept, Utf8) == Some(codecs.utf8(kept));
    }
  }

  /** A text body with no charset is the utf-8 decoding of the kept bytes. */
  lemma NoCharsetDecodesUtf8(url: string, maxBytes: int, resp: Response, codecs: Codecs)
    requires Coherent(codecs)
    requires !IsBinary(resp.contentType) && ParseCharset(resp.contentType).None?
    ensures var r := HttpFetch(url, maxBytes, Responded(resp), codecs);
      r.body == codecs.utf8(Truncate(resp.content, maxBytes).0) && r.encoding.None?
  {
    var kept := Truncate(resp.content, maxBytes).0;
    assert codecs.decode(kept, Utf8) == Some(codecs.utf8(kept));
  }

  /** A charset Python does not know is still reported, and the body falls
      back to utf-8. */
  lemma UnknownCharsetFallsBack(url: string, maxBytes: int, resp: Response, codecs: Codecs)
    requires !IsBinary(resp.contentType)
    requires ParseCharset(resp.contentType).Some? && ParseCharset(resp.contentType).value != ""
    requires codecs.decode(Truncate(resp.content, maxBytes).0, ParseCharset(resp.contentType).value).None?
    ensures var r := HttpFetch(url, maxBytes, Responded(resp), codecs);
      r.body == codecs.utf8(Truncate(resp.content, maxBytes).0) && r.encoding == ParseCharset(resp.contentType)
  {
  }

  /** A body longer than the ceiling is cut to exactly the ceiling and
      flagged; the text is decoded from those bytes only. */
  lemma TruncatedToCeiling(url: string, maxBytes: nat, resp: Response, codecs: Codecs)
    requires |resp.content| > maxBytes
    ensures var r := HttpFetch(url, maxBytes, Responded(resp), codecs);
      && r.truncated
      && Truncate(resp.content, maxBytes).0 == resp.content[..maxBytes]
      && (!IsBinary(resp.contentType) ==>
            r.body == DecodeText(resp.content[..maxBytes], ParseCharset(resp.contentType), codecs).0)
  {
  }

  /** A whole text document within the ceiling, served with a charset
      Python knows, comes back untruncated as exactly its decoded text. */
  lemma WholeDocument(url: string, maxBytes: int, resp: Response, codecs: Codecs, charset: string)
    requires |resp.content| <= maxBytes
    requires !IsBinary(resp.contentType)
    requires ParseCharset(resp.contentType) == Some(charset) && charset != ""
    requires codecs.decode(resp.content, charset).Some?
    ensures var r := HttpFetch(url, maxBytes, Responded(resp), codecs);
      && !r.truncated && r.status == resp.status
      && r.body == codecs.decode(resp.content, charset).value
      && r.encoding == Some(charset)
  {
  }

  /** Only the segments after the first `;` are examined: a content-type
      without `;` has no charset, whatever it says. */
  lemma NoParametersNoCharset(ct: string)
    requires ';' !in ct
    ensures ParseCharset(Some(ct)).None?
  {
    SplitJoin([ct], ';');
  }

  /** The pieces of a media type followed by separator-free parameters are
      the media type and those parameters. */
  lemma SplitParameters(mediaType: string, params: seq<string>)
    requires |params| >= 1
    requires ';' !in mediaType
    requires forall k :: 0 <= k < |params| ==> ';' !in params[k]
    ensures Split(mediaType + ";" + Join(params, ';'), ';') == [mediaType] + params
  {
    var parts := [mediaType] + params;
    assert parts[1..] == params;
    assert Join(parts, ';') == mediaType + ";" + Join(params, ';');
    forall k | 0 <= k < |parts|
      ensures ';' !in parts[k]
    {
      if k == 0 {
        assert parts[k] == mediaType;
      } else {
        assert parts[k] == params[k - 1];
      }
    }
    SplitJoin(parts, ';');
  }

  /** A media type followed by parameters of which the first is a charset
      parameter reports that parameter's value. */
  lemma FirstParameterCharset(mediaType: string, params: seq<string>)
    requires |params| >= 1 && CharsetParam(params[0]).Some?
    requires ';' !in mediaType
    requires forall k :: 0 <= k < |params| ==> ';' !in params[k]
    ensures ParseCharset(Some(mediaType + ";" + Join(params, ';'))) == CharsetParam(params[0])
  {
    var ct := mediaType + ";" + Join(params, ';');
    SplitParameters(mediaType, params);
    assert ct != "" by {
      assert ct[|mediaType|] == ';';
    }
    var parts := [mediaType] + params;
    assert ParseCharset(Some(ct)) == ParametersCharset(parts);
    assert parts[1..] == params;
    assert ParametersCharset(parts) == FirstSome(CharsetParam, params);
    assert FirstSome(CharsetParam, params) == CharsetParam(params[0]);
  }
}
