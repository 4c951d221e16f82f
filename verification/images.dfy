/** The pure parts of the image-inlining filter in src/core/filters/html/images.rs:
    which `img` sources it touches, where it fetches them, the size gate and the
    data URI it writes back. The HTTP client, the HTML parser and the image codec
    are inputs. */
module Images {
  import opened Wrappers
  import opened Strings
  import Base64

  const DEFAULT_MAX_SIZE: nat := 1024 * 300
  const DEFAULT_CONTENT_TYPE: string := "image/jpeg"

  datatype ImagesConfig = ImagesConfig(maxSize: nat, optimize: bool, maxWidth: Option<nat>)

  /** `ImagesFilter::new`: 300 KiB, optimisation on, no width cap. */
  function New(): (c: ImagesConfig)
    ensures c.maxSize == 307200 && c.optimize && c.maxWidth.None?
  {
    ImagesConfig(DEFAULT_MAX_SIZE, true, None)
  }

  function WithMaxSize(c: ImagesConfig, size: nat): (r: ImagesConfig)
    ensures r.maxSize == size && r.optimize == c.optimize && r.maxWidth == c.maxWidth
  {
    c.(maxSize := size)
  }

  function WithOptimize(c: ImagesConfig, optimize: bool): (r: ImagesConfig)
    ensures r.optimize == optimize && r.maxSize == c.maxSize && r.maxWidth == c.maxWidth
  {
    c.(optimize := optimize)
  }

  function WithMaxWidth(c: ImagesConfig, width: nat): (r: ImagesConfig)
    ensures r.maxWidth == Some(width) && r.maxSize == c.maxSize && r.optimize == c.optimize
  {
    c.(maxWidth := Some(width))
  }

  /** `data_url_string` */
  predicate DataUrlString(s: string) {
    StartsWith(s, "data:")
  }

  /** `relative_url_string`: no "://" anywhere, not a data URL, not a fragment. */
  predicate RelativeUrlString(s: string) {
    !Contains(s, "://") && !StartsWith(s, "data:") && !StartsWith(s, "#")
  }

  /** The data-URL expectations of the filter's URL-detection test. */
  lemma DataUrlExamples()
    ensures DataUrlString("data:image/png;base64,ABC")
    ensures !DataUrlString("https://example.com/image.png")
    ensures !DataUrlString("/images/icon.png")
  {
    assert "data:image/png;base64,ABC"[..5] == "data:";
    PrefixMismatch("https://example.com/image.png", "data:", 0);
    PrefixMismatch("/images/icon.png", "data:", 0);
  }

  lemma PrefixMismatch(s: string, p: string, i: nat)
    requires i < |s| && i < |p| && s[i] != p[i]
    ensures !StartsWith(s, p)
  {
  }

  /** The relative-URL expectations of the same test, one string each. */
  lemma RelativeUrlExampleRoot()
    ensures RelativeUrlString("/images/test.png")
  {
    RelativeWithoutColon("/images/test.png");
  }

  lemma RelativeUrlExampleParent()
    ensures RelativeUrlString("../images/test.png")
  {
    RelativeWithoutColon("../images/test.png");
  }

  lemma RelativeUrlExampleBare()
    ensures RelativeUrlString("images/test.png")
  {
    RelativeWithoutColon("images/test.png");
  }

  /** A string with no ':' that starts with neither 'd' nor '#' is relative. */
  lemma RelativeWithoutColon(s: string)
    requires forall i :: 0 <= i < |s| ==> s[i] != ':'
    requires |s| > 0 && s[0] != 'd' && s[0] != '#'
    ensures RelativeUrlString(s)
  {
    NoColonSlashSlash(s);
    PrefixMismatch(s, "data:", 0);
    PrefixMismatch(s, "#", 0);
  }

  /** The non-relative expectations of the same test, one string each. */
  lemma NonRelativeUrlExampleHttps()
    ensures !RelativeUrlString("https://example.com/image.png")
  {
    SchemeNotRelative("https", "example.com/image.png");
  }

  lemma NonRelativeUrlExampleHttp()
    ensures !RelativeUrlString("http://localhost/image.png")
  {
    SchemeNotRelative("http", "localhost/image.png");
  }

  lemma NonRelativeUrlExamplePrefixes()
    ensures !RelativeUrlString("data:image/png;base64,ABC")
    ensures !RelativeUrlString("#section-1")
  {
    assert "data:image/png;base64,ABC"[..5] == "data:";
    assert "#section-1"[..1] == "#";
  }

  /** "scheme://rest" is never relative. */
  lemma SchemeNotRelative(scheme: string, rest: string)
    ensures !RelativeUrlString(scheme + "://" + rest)
  {
    var s := scheme + "://" + rest;
    assert s[|scheme|..|scheme| + 3] == "://";
    ContainsOfOccurrence(s, "://", |scheme|);
  }

  /** A string without ':' does not contain "://". */
  lemma NoColonSlashSlash(s: string)
    requires forall i :: 0 <= i < |s| ==> s[i] != ':'
    ensures !Contains(s, "://")
  {
    ContainsIff(s, "://");
    forall i | 0 <= i && i + 3 <= |s| ensures !OccursAt(s, "://", i) {
      assert s[i..i + 3][0] == s[i];
    }
  }

  /** Where the filter fetches an `img` source: a relative one is appended to the
      base URL without its trailing '/'s, any other one is used as it is. */
  function ResolveSrc(baseUrl: string, src: string): (r: string)
    ensures RelativeUrlString(src) ==> r == TrimEndMatches(baseUrl, "/") + src
    ensures !RelativeUrlString(src) ==> r == src
    ensures EndsWith(r, src)
  {
    if RelativeUrlString(src) then TrimEndMatches(baseUrl, "/") + src else src
  }

  /** What the HTTP client hands back for one image URL. */
  datatype ImageResponse = ImageResponse(status: nat, contentType: Option<string>, body: Result<seq<Base64.byte>>)

  /** The data URI for a body of the given content type. */
  function DataUri(contentType: string, bytes: seq<Base64.byte>): (r: string)
    ensures DataUrlString(r)
  {
    "data:" + contentType + ";base64," + Base64.Encode(bytes)
  }

  /** The data URI carries the content type and the bytes: the bytes come back
      by decoding the text after ";base64,". */
  lemma DataUriRoundTrip(contentType: string, bytes: seq<Base64.byte>)
    ensures var r := DataUri(contentType, bytes);
      var k := |"data:" + contentType + ";base64,"|;
      r[5..k - 8] == contentType && Base64.Decode(r[k..]) == Some(bytes)
  {
    Base64.DecodeEncode(bytes);
    var r := DataUri(contentType, bytes);
    var k := |"data:" + contentType + ";base64,"|;
    assert r[k..] == Base64.Encode(bytes);
    assert r[5..k - 8] == contentType;
  }

  /** `download_image`. `sent` is the outcome of sending the request; `recode`
      stands for decoding, resizing and re-encoding an oversized image (with the
      configured width cap) and yields the new bytes or an error. */
  function DownloadImage(c: ImagesConfig, sent: Result<ImageResponse>,
                         recode: (seq<Base64.byte>, string) -> Result<seq<Base64.byte>>): (r: Result<string>)
    ensures r.Ok? ==> DataUrlString(r.value)
    ensures sent.Err? ==> r.Err?
    ensures sent.Ok? && !(200 <= sent.value.status <= 299) ==> r.Err?
    ensures sent.Ok? && sent.value.body.Err? ==> r.Err?
    ensures sent.Ok? && 200 <= sent.value.status <= 299 && sent.value.body.Ok?
            && |sent.value.body.value| <= c.maxSize
            ==> r == Ok(DataUri(sent.value.contentType.GetOr(DEFAULT_CONTENT_TYPE), sent.value.body.value))
    ensures sent.Ok? && sent.value.body.Ok? && |sent.value.body.value| > c.maxSize && !c.optimize ==> r.Err?
  {
    if sent.Err? then Err("Failed to download image")
    else
      var resp := sent.value;
      if !(200 <= resp.status <= 299) then Err("Failed to download image: HTTP status")
      else
        var contentType := resp.contentType.GetOr(DEFAULT_CONTENT_TYPE);
        if resp.body.Err? then Err("Failed to read image data")
        else
          var bytes := resp.body.value;
          if |bytes| > c.maxSize then
            if c.optimize then OptimizeImage(c, bytes, contentType, recode)
            else Err("Image too large")
          else Ok(DataUri(contentType, bytes))
  }

  /** `optimize_image`: the recoded bytes are inlined only if they now fit. */
  function OptimizeImage(c: ImagesConfig, bytes: seq<Base64.byte>, contentType: string,
                         recode: (seq<Base64.byte>, string) -> Result<seq<Base64.byte>>): (r: Result<string>)
    ensures r.Ok? <==> recode(bytes, contentType).Ok? && |recode(bytes, contentType).value| <= c.maxSize
    ensures r.Ok? ==> r.value == DataUri(contentType, recode(bytes, contentType).value)
  {
    var recoded := recode(bytes, contentType);
    if recoded.Err? then Err("Failed to decode image")
    else if |recoded.value| > c.maxSize then Err("Optimized image still too large")
    else Ok(DataUri(contentType, recoded.value))
  }

  /** An `img` element as the parser reports it: its `src` attribute, if any, and
      its serialised HTML. */
  datatype Img = Img(src: Option<string>, html: string)

  /** The `img` elements the filter leaves alone. */
  predicate Skipped(img: Img) {
    img.src.None? || DataUrlString(img.src.value)
  }

  function SrcAttr(src: string): string {
    "src=\"" + src + "\""
  }

  /** One turn of the loop in `apply`: a skipped image or a failed download leaves
      the text as it is; otherwise every copy of the element's HTML is replaced by
      the element with its `src` pointing at the data URI. */
  function ApplyOne(result: string, img: Img, baseUrl: string, download: string -> Result<string>): (r: string)
    ensures Skipped(img) ==> r == result
    ensures !Skipped(img) && download(ResolveSrc(baseUrl, img.src.value)).Err? ==> r == result
  {
    if Skipped(img) then result
    else
      var src := img.src.value;
      match download(ResolveSrc(baseUrl, src))
      case Err(_) => result
      case Ok(dataUrl) =>
        var newHtml := ReplaceAll(img.html, SrcAttr(src), SrcAttr(dataUrl));
        ReplaceAll(result, img.html, newHtml)
  }

  /** `apply` over the document's `img` elements in document order; `download`
      stands for `download_image` on the resolved URL. */
  function Apply(html: string, imgs: seq<Img>, baseUrl: string, download: string -> Result<string>): (r: Result<string>)
    ensures r.Ok?
    decreases |imgs|
  {
    if |imgs| == 0 then Ok(html)
    else Apply(ApplyOne(html, imgs[0], baseUrl, download), imgs[1..], baseUrl, download)
  }

  /** The URLs `apply` downloads, in order: the resolved sources of the images it
      does not skip. */
  function Fetched(imgs: seq<Img>, baseUrl: string): (r: seq<string>)
    ensures |r| <= |imgs|
  {
    if |imgs| == 0 then []
    else if Skipped(imgs[0]) then Fetched(imgs[1..], baseUrl)
    else [ResolveSrc(baseUrl, imgs[0].src.value)] + Fetched(imgs[1..], baseUrl)
  }

  /** The text changes only through downloads: if none of the fetched URLs
      downloads successfully (in particular if every image is skipped), `apply`
      returns the HTML unchanged. */
  lemma {:induction false} ApplyUnchangedWithoutDownloads(html: string, imgs: seq<Img>, baseUrl: string,
                                                          download: string -> Result<string>)
    requires forall i :: 0 <= i < |Fetched(imgs, baseUrl)| ==> download(Fetched(imgs, baseUrl)[i]).Err?
    ensures Apply(html, imgs, baseUrl, download) == Ok(html)
    decreases |imgs|
  {
    if |imgs| > 0 {
      var rest := Fetched(imgs[1..], baseUrl);
      var all := Fetched(imgs, baseUrl);
      if !Skipped(imgs[0]) {
        assert all[0] == ResolveSrc(baseUrl, imgs[0].src.value);
        forall i | 0 <= i < |rest| ensures download(rest[i]).Err? {
          assert rest[i] == all[i + 1];
        }
      } else {
        assert all == rest;
      }
      ApplyUnchangedWithoutDownloads(html, imgs[1..], baseUrl, download);
    }
  }

  /** Images without `src` or with a data URL are never fetched, whatever the
      download does: the filter's data-URL test. */
  lemma {:induction false} ApplyAllSkipped(html: string, imgs: seq<Img>, baseUrl: string,
                                           download: string -> Result<string>)
    requires forall i :: 0 <= i < |imgs| ==> Skipped(imgs[i])
    ensures Fetched(imgs, baseUrl) == []
    ensures Apply(html, imgs, baseUrl, download) == Ok(html)
    decreases |imgs|
  {
    if |imgs| > 0 {
      ApplyAllSkipped(html, imgs[1..], baseUrl, download);
    }
  }

  /** The data-URL test of the filter: a lone `img` whose source is already a data
      URL comes back unchanged, and nothing is fetched. */
  lemma DataUrlImageUnchanged(html: string, payload: string, baseUrl: string, download: string -> Result<string>)
    ensures var imgs := [Img(Some("data:" + payload), html)];
      Fetched(imgs, baseUrl) == [] && Apply(html, imgs, baseUrl, download) == Ok(html)
  {
    ApplyAllSkipped(html, [Img(Some("data:" + payload), html)], baseUrl, download);
  }
}
