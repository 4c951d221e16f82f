/** The helpers of the `FilterBase` trait in src/core/filters/filter_base.rs. */
module FilterBase {
  import opened Wrappers
  import opened Strings
  import opened Filter

  const DATA_URL: string := "data:"

  /** `filter_subpath_to`: the part of `url` after `base_url`, always starting
      with '/'; a URL outside `base_url` is returned unchanged. */
  function FilterSubpathTo(ctx: FilterContext, url: string): (r: string)
    ensures StartsWith(url, ctx.baseUrl) ==> StartsWith(r, "/")
    ensures StartsWith(url, ctx.baseUrl) && StartsWith(url[|ctx.baseUrl|..], "/") ==> url == ctx.baseUrl + r
    ensures StartsWith(url, ctx.baseUrl) && !StartsWith(url[|ctx.baseUrl|..], "/") ==> url == ctx.baseUrl + r[1..]
    ensures !StartsWith(url, ctx.baseUrl) ==> r == url
  {
    if StartsWith(url, ctx.baseUrl) then
      var sub := url[|ctx.baseUrl|..];
      if !StartsWith(sub, "/") then "/" + sub else sub
    else url
  }

  /** `filter_subpath`: the subpath of the current URL. */
  function FilterSubpath(ctx: FilterContext): string {
    FilterSubpathTo(ctx, ctx.currentUrl)
  }

  /** `filter_slug`: the current subpath without its leading '/'s and without
      every trailing ".html". */
  function FilterSlug(ctx: FilterContext): (r: string)
    ensures !EndsWith(r, ".html")
    ensures exists k: nat :: TrimStartChar(FilterSubpath(ctx), '/') == r + Repeat(".html", k)
  {
    TrimEndMatches(TrimStartChar(FilterSubpath(ctx), '/'), ".html")
  }

  /** The slug is the only text that, followed by some copies of ".html", gives
      the subpath without its leading '/'s and does not itself end in ".html". */
  lemma FilterSlugUnique(ctx: FilterContext, slug: string, k: nat)
    requires TrimStartChar(FilterSubpath(ctx), '/') == slug + Repeat(".html", k)
    requires !EndsWith(slug, ".html")
    ensures FilterSlug(ctx) == slug
  {
    var t := TrimStartChar(FilterSubpath(ctx), '/');
    var r := FilterSlug(ctx);
    var j: nat :| t == r + Repeat(".html", j);
    TrimEndUnique(t, ".html", r, j, slug, k);
  }

  predicate FilterRootPage(ctx: FilterContext) {
    var sp := FilterSubpath(ctx);
    sp == "" || sp == "/" || sp == ctx.rootPath
  }

  predicate FilterInitialPage(ctx: FilterContext) {
    FilterRootPage(ctx) || FilterSubpath(ctx) in ctx.initialPaths
  }

  /** Under `base_url` the subpath is never empty, so a root page there is one
      whose subpath is "/" or the root path. */
  lemma FilterRootPageUnderBase(ctx: FilterContext)
    requires StartsWith(ctx.currentUrl, ctx.baseUrl)
    ensures FilterRootPage(ctx) <==> FilterSubpath(ctx) == "/" || FilterSubpath(ctx) == ctx.rootPath
    ensures FilterRootPage(ctx) ==> FilterInitialPage(ctx)
  {
  }

  predicate FragmentUrlString(s: string) { |s| > 0 && StartsWith(s, "#") }

  predicate DataUrlString(s: string) { StartsWith(s, DATA_URL) }

  predicate SchemeChar(c: char) { c != ':' && c != '/' && c != '?' && c != '#' }

  /** The regex `\A[^:\/?#]+:`: one or more chars other than ':', '/', '?' and '#',
      then ':', at the start. */
  predicate HasScheme(s: string) {
    exists k :: 1 <= k < |s| && s[k] == ':' && forall i :: 0 <= i < k ==> SchemeChar(s[i])
  }

  /** The same test, scanning for the first char outside the scheme class. */
  function SchemeEnd(s: string): (k: nat)
    ensures k <= |s|
    ensures forall i :: 0 <= i < k ==> SchemeChar(s[i])
    ensures k < |s| ==> !SchemeChar(s[k])
  {
    if |s| == 0 || !SchemeChar(s[0]) then 0 else 1 + SchemeEnd(s[1..])
  }

  lemma HasSchemeIff(s: string)
    ensures HasScheme(s) <==> var k := SchemeEnd(s); 1 <= k < |s| && s[k] == ':'
  {
    var k := SchemeEnd(s);
    if HasScheme(s) {
      var j :| 1 <= j < |s| && s[j] == ':' && forall i :: 0 <= i < j ==> SchemeChar(s[i]);
      SchemeEndAtLeast(s, j);
    }
    if 1 <= k < |s| && s[k] == ':' {
      assert forall i :: 0 <= i < k ==> SchemeChar(s[i]);
    }
  }

  /** The scan runs at least over any prefix of scheme chars. */
  lemma {:induction false} SchemeEndAtLeast(s: string, j: nat)
    requires j <= |s|
    requires forall i :: 0 <= i < j ==> SchemeChar(s[i])
    ensures SchemeEnd(s) >= j
    decreases j
  {
    if j > 0 {
      SchemeEndAtLeast(s[1..], j - 1);
    }
  }

  predicate AbsoluteUrlString(s: string) { HasScheme(s) }

  predicate RelativeUrlString(s: string) {
    !HasScheme(s) && !FragmentUrlString(s) && !DataUrlString(s)
  }

  /** A "data:" string has a scheme, so relative means neither absolute nor a
      fragment. */
  lemma RelativeUrlStringReduces(s: string)
    ensures RelativeUrlString(s) <==> !AbsoluteUrlString(s) && !FragmentUrlString(s)
    ensures DataUrlString(s) ==> AbsoluteUrlString(s)
  {
    if DataUrlString(s) {
      assert s[4] == ':';
      assert forall i :: 0 <= i < 4 ==> SchemeChar(s[i]);
    }
  }

  predicate PathSpecial(c: char) { c == '!' || c == ';' || c == ':' }

  /** '!', ';' and ':' replaced by '-', every other char kept. */
  function Dash(path: string): (r: string)
    ensures |r| == |path|
    ensures forall i :: 0 <= i < |path| ==> r[i] == if PathSpecial(path[i]) then '-' else path[i]
  {
    seq(|path|, i requires 0 <= i < |path| => if PathSpecial(path[i]) then '-' else path[i])
  }

  /** No char of `s` is one `clean_path` rewrites. */
  predicate Cleaned(s: string) {
    forall i :: 0 <= i < |s| ==> !PathSpecial(s[i]) && s[i] != '+'
  }

  /** `clean_path`: '!', ';' and ':' become '-', then "+" becomes "_plus_". */
  function CleanPath(path: string): string {
    ReplaceAll(Dash(path), "+", "_plus_")
  }

  /** None of the four characters survives, and cleaning twice is cleaning once. */
  lemma CleanPathProperties(path: string)
    ensures Cleaned(CleanPath(path))
    ensures CleanPath(CleanPath(path)) == CleanPath(path)
  {
    ReplacePlusClean(Dash(path));
    var r := CleanPath(path);
    assert Dash(r) == r;
    ContainsIff(r, "+");
    forall i | 0 <= i && i + 1 <= |r| ensures !OccursAt(r, "+", i) {
      assert r[i..i + 1] == [r[i]];
    }
    ReplaceAllAbsent(r, "+", "_plus_");
  }

  /** Replacing every '+' by "_plus_" in a string free of '!', ';', ':' leaves no
      special char and no '+'. */
  lemma {:induction false} ReplacePlusClean(s: string)
    requires forall i :: 0 <= i < |s| ==> !PathSpecial(s[i])
    ensures Cleaned(ReplaceAll(s, "+", "_plus_"))
    decreases |s|
  {
    if |s| > 0 {
      ReplacePlusClean(s[1..]);
      var rest := ReplaceAll(s[1..], "+", "_plus_");
      var head := if "+" <= s then "_plus_" else [s[0]];
      assert ReplaceAll(s, "+", "_plus_") == head + rest;
      assert s[0] != '+' || "+" <= s by { assert s[..1] == [s[0]]; }
      assert Cleaned(head);
      forall i | 0 <= i < |head + rest|
        ensures !PathSpecial((head + rest)[i]) && (head + rest)[i] != '+'
      {
        if i >= |head| {
          assert (head + rest)[i] == rest[i - |head|];
        }
      }
    }
  }
}
