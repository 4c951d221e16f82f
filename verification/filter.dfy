/** The filter context and the default methods of the `Filter` trait in
    src/core/scraper/filter.rs. */
module Filter {
  import opened Wrappers
  import opened Strings

  /** An entry as filters report it: (name, path, type). */
  type EntryTriple = (string, string, string)

  datatype FilterContext = FilterContext(
    options: map<string, string>,
    baseUrl: string,
    links: seq<string>,
    rootUrl: string,
    rootPath: string,
    version: string,
    release: string,
    initialPaths: seq<string>,
    slug: string,
    currentPath: string,
    currentUrl: string,
    attribution: Option<string>,
    html: string,
    title: string,
    content: string,
    additionalEntries: seq<EntryTriple>)

  /** `FilterContext::default()`: every string empty, every collection empty. */
  function DefaultContext(): FilterContext {
    FilterContext(map[], "", [], "", "", "", "", [], "", "", "", None, "", "", "", [])
  }

  function WithOption(ctx: FilterContext, key: string, value: string): (r: FilterContext)
    ensures key in r.options && r.options[key] == value
    ensures forall k :: k != key ==> (k in r.options <==> k in ctx.options)
    ensures forall k :: k != key && k in ctx.options ==> r.options[k] == ctx.options[k]
    ensures r.(options := ctx.options) == ctx
  {
    ctx.(options := ctx.options[key := value])
  }

  function GetOption(ctx: FilterContext, key: string): (r: Option<string>)
    ensures r.Some? <==> key in ctx.options
    ensures r.Some? ==> r.value == ctx.options[key]
  {
    if key in ctx.options then Some(ctx.options[key]) else None
  }

  /** `with_option(k, v)` makes `get_option(k)` return v and leaves the other keys
      as they were. */
  lemma OptionRoundTrip(ctx: FilterContext, k: string, v: string, other: string)
    requires other != k
    ensures GetOption(WithOption(ctx, k, v), k) == Some(v)
    ensures GetOption(WithOption(ctx, k, v), other) == GetOption(ctx, other)
  {
  }

  /** `subpath_to`: the part of `url` after `base_url`, leading '/'s removed; a URL
      outside `base_url` is returned unchanged. */
  function SubpathTo(ctx: FilterContext, url: string): (r: string)
    ensures StartsWith(url, ctx.baseUrl) ==>
      |r| <= |url| - |ctx.baseUrl| && r == url[|url| - |r|..]
      && (|r| > 0 ==> r[0] != '/')
      && forall i :: |ctx.baseUrl| <= i < |url| - |r| ==> url[i] == '/'
    ensures !StartsWith(url, ctx.baseUrl) ==> r == url
  {
    if StartsWith(url, ctx.baseUrl) then TrimStartChar(url[|ctx.baseUrl|..], '/') else url
  }

  /** A subpath without a leading '/' is recovered from base_url + '/'s + subpath. */
  lemma SubpathToRoundTrip(ctx: FilterContext, slashes: nat, p: string)
    requires |p| == 0 || p[0] != '/'
    ensures SubpathTo(ctx, ctx.baseUrl + seq(slashes, _ => '/') + p) == p
  {
    var rest := seq(slashes, _ => '/') + p;
    assert ctx.baseUrl + seq(slashes, _ => '/') + p == ctx.baseUrl + rest;
    SubpathToBelow(ctx, rest);
    TrimSlashes(slashes, p);
  }

  /** Below `base_url`, `subpath_to` trims the leading '/'s of the rest. */
  lemma SubpathToBelow(ctx: FilterContext, rest: string)
    ensures SubpathTo(ctx, ctx.baseUrl + rest) == TrimStartChar(rest, '/')
  {
    var url := ctx.baseUrl + rest;
    assert StartsWith(url, ctx.baseUrl);
    assert url[|ctx.baseUrl|..] == rest;
  }

  lemma {:induction false} TrimSlashes(n: nat, p: string)
    requires |p| == 0 || p[0] != '/'
    ensures TrimStartChar(seq(n, _ => '/') + p, '/') == p
    decreases n
  {
    if n > 0 {
      assert (seq(n, _ => '/') + p)[1..] == seq(n - 1, _ => '/') + p;
      TrimSlashes(n - 1, p);
    } else {
      assert seq(n, _ => '/') + p == p;
    }
  }

  /** `subpath`: the subpath of `root_url`, not of the current URL. */
  function Subpath(ctx: FilterContext): string {
    SubpathTo(ctx, ctx.rootUrl)
  }

  predicate RootPage(ctx: FilterContext) {
    var sp := Subpath(ctx);
    sp == "" || sp == "/" || sp == ctx.rootPath
  }

  predicate InitialPage(ctx: FilterContext) {
    RootPage(ctx) || Subpath(ctx) in ctx.initialPaths
  }

  /** Whether a page is a root or initial page depends on `root_url`, never on the
      current URL. */
  lemma PageKindIgnoresCurrentUrl(ctx: FilterContext, url: string)
    ensures RootPage(ctx.(currentUrl := url)) == RootPage(ctx)
    ensures InitialPage(ctx.(currentUrl := url)) == InitialPage(ctx)
    ensures RootPage(ctx) ==> InitialPage(ctx)
  {
  }

  predicate IsFragmentUrl(url: string) { StartsWith(url, "#") }

  predicate IsDataUrl(url: string) { StartsWith(url, "data:") }

  predicate IsRelativeUrl(url: string) {
    !Contains(url, "://") && !IsFragmentUrl(url) && !IsDataUrl(url)
  }

  predicate IsAbsoluteUrl(url: string) { Contains(url, "://") }

  /** `is_internal_url`: relative URLs are internal; other URLs are internal when
      they lie strictly under `base_url`. */
  predicate IsInternalUrl(url: string, ctx: FilterContext) {
    if IsRelativeUrl(url) then true
    else if StartsWith(url, ctx.baseUrl) then
      var rest := url[|ctx.baseUrl|..];
      rest != "" && rest != "/"
    else false
  }

  /** The URL kinds: relative and absolute exclude each other; a URL neither
      relative nor absolute is a fragment or a data URL; an absolute URL is
      internal exactly when it extends `base_url` by more than "/". */
  lemma UrlKinds(url: string, ctx: FilterContext)
    ensures IsRelativeUrl(url) ==> !IsAbsoluteUrl(url) && IsInternalUrl(url, ctx)
    ensures !IsRelativeUrl(url) && !IsAbsoluteUrl(url) ==> IsFragmentUrl(url) || IsDataUrl(url)
    ensures IsAbsoluteUrl(url) ==>
      (IsInternalUrl(url, ctx) <==> StartsWith(url, ctx.baseUrl) && url != ctx.baseUrl && url != ctx.baseUrl + "/")
  {
    if IsAbsoluteUrl(url) && StartsWith(url, ctx.baseUrl) {
      assert url == ctx.baseUrl + url[|ctx.baseUrl|..];
    }
  }

  /** The default `get_entries` reports no entries. */
  function DefaultGetEntries(html: string, ctx: FilterContext): (r: seq<EntryTriple>)
    ensures r == []
  {
    []
  }

  /** `DefaultFilter::apply`: the HTML unchanged, always Ok. */
  function DefaultApply(html: string, ctx: FilterContext): (r: Result<string>)
    ensures r == Ok(html)
  {
    Ok(html)
  }
}
