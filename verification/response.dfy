/** `Response` (src/core/response.rs): the status, body and headers of a fetched
    page, and the predicates the crawler asks of them. Headers are the map built
    from the transport's header list; building it is not modelled. */
module Response {
  import opened Wrappers
  import opened Strings
  import opened Numbers

  datatype Response = Response(code: nat, body: string, headers: map<string, string>, timedOut: bool)

  const CONTENT_LENGTH: string := "Content-Length"
  const CONTENT_TYPE: string := "Content-Type"
  const DEFAULT_MIME: string := "text/plain"

  /** `success`: status 200. */
  predicate Success(r: Response) {
    r.code == 200
  }

  /** `error`: status 0, or a 4xx/5xx status other than 403 and 404. */
  predicate IsError(r: Response) {
    r.code == 0 || (r.code != 404 && r.code != 403 && 400 <= r.code <= 599)
  }

  predicate Blank(r: Response) {
    |r.body| == 0
  }

  /** `content_length`: the Content-Length header read as a `usize`, or 0 when
      it is missing or does not parse. */
  function ContentLength(r: Response): (n: nat)
    ensures n <= USIZE_MAX
    ensures CONTENT_LENGTH !in r.headers ==> n == 0
    ensures CONTENT_LENGTH in r.headers && ParseUnsigned(r.headers[CONTENT_LENGTH], USIZE_MAX).None? ==> n == 0
    ensures CONTENT_LENGTH in r.headers && ParseUnsigned(r.headers[CONTENT_LENGTH], USIZE_MAX).Some? ==>
      n == ParseUnsigned(r.headers[CONTENT_LENGTH], USIZE_MAX).value
  {
    if CONTENT_LENGTH in r.headers then
      match ParseUnsigned(r.headers[CONTENT_LENGTH], USIZE_MAX)
      case Some(v) => v
      case None => 0
    else 0
  }

  /** `mime_type`: the Content-Type header, "text/plain" without one. */
  function MimeType(r: Response): (m: string)
    ensures CONTENT_TYPE in r.headers ==> m == r.headers[CONTENT_TYPE]
    ensures CONTENT_TYPE !in r.headers ==> m == DEFAULT_MIME
  {
    if CONTENT_TYPE in r.headers then r.headers[CONTENT_TYPE] else DEFAULT_MIME
  }

  predicate IsHtml(r: Response) {
    Contains(MimeType(r), "html")
  }

  /** A successful response is never an error, and 403 and 404 are not errors
      either; 0 and the other 4xx and 5xx statuses are. */
  lemma StatusClasses(r: Response)
    ensures Success(r) ==> !IsError(r)
    ensures r.code == 403 || r.code == 404 ==> !IsError(r) && !Success(r)
    ensures r.code == 0 || (400 <= r.code <= 599 && r.code != 403 && r.code != 404) ==> IsError(r)
    ensures 1 <= r.code < 400 || r.code > 599 ==> !IsError(r)
  {
  }

  /** The decimal form of a representable length reads back as that length. */
  lemma ContentLengthOfDecimal(r: Response, n: nat)
    requires n <= USIZE_MAX
    requires CONTENT_LENGTH in r.headers && r.headers[CONTENT_LENGTH] == NatToString(n)
    ensures ContentLength(r) == n
  {
    ParseNatToString(n, USIZE_MAX);
  }

  /** Without a Content-Type header a response is not HTML. */
  lemma NoContentTypeNotHtml(r: Response)
    requires CONTENT_TYPE !in r.headers
    ensures !IsHtml(r)
  {
    AbsentChar(DEFAULT_MIME, "html", 0);
  }

  /** Any Content-Type mentioning "html" makes the response HTML. */
  lemma HtmlMimeIsHtml(r: Response, before: string, after: string)
    requires CONTENT_TYPE in r.headers && r.headers[CONTENT_TYPE] == before + "html" + after
    ensures IsHtml(r)
  {
    assert OccursAt(r.headers[CONTENT_TYPE], "html", |before|);
    ContainsIff(r.headers[CONTENT_TYPE], "html");
  }

  /** The module's own test: a 200 "text/html" response with Content-Length 100. */
  lemma ResponseScenario()
    ensures var r := Response(200, "<html></html>", map[CONTENT_TYPE := "text/html", CONTENT_LENGTH := "100"], false);
      && Success(r) && !IsError(r) && !Blank(r)
      && ContentLength(r) == 100 && MimeType(r) == "text/html" && IsHtml(r) && !r.timedOut
  {
    var r := Response(200, "<html></html>", map[CONTENT_TYPE := "text/html", CONTENT_LENGTH := "100"], false);
    assert CONTENT_TYPE[8] != CONTENT_LENGTH[8];
    assert NatToString(100) == "100" by {
      assert DigitChar(0) == '0' && DigitChar(1) == '1';
      assert NatToString(1) == "1";
      assert NatToString(10) == NatToString(1) + [DigitChar(0)] == "10";
      assert NatToString(100) == NatToString(10) + [DigitChar(0)];
    }
    ContentLengthOfDecimal(r, 100);
    assert MimeType(r) == "text/html";
    assert "text/html" == "text/" + "html" + "";
    HtmlMimeIsHtml(r, "text/", "");
  }
}
