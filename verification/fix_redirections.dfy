/** `FixRedirections` (src/core/scraper/fix_redirections.rs): a record of the
    redirects met while crawling, and their application to a map of page paths.
    URL parsing (`Url::parse(..).path()`) is an input. */
module FixRedirections {
  import opened Wrappers
  import opened Strings
  import opened Collections
  import opened PathRemap

  /** The shared redirect map, from the requested URL to the URL it led to. */
  datatype Fixer = Fixer(redirections: map<string, string>)

  function New(): (f: Fixer)
    ensures |f.redirections| == 0
  {
    Fixer(map[])
  }

  /** `add_redirection`: records (or overwrites) the redirect from `fromUrl`. */
  function AddRedirection(f: Fixer, fromUrl: string, toUrl: string): (r: Fixer)
    ensures fromUrl in r.redirections && r.redirections[fromUrl] == toUrl
    ensures forall u :: u != fromUrl ==> (u in r.redirections <==> u in f.redirections)
    ensures forall u :: u != fromUrl && u in f.redirections ==> r.redirections[u] == f.redirections[u]
  {
    Fixer(f.redirections[fromUrl := toUrl])
  }

  /** `effective_url`: where a URL leads, itself when no redirect was recorded. */
  function EffectiveUrl(f: Fixer, url: string): (r: string)
    ensures url !in f.redirections ==> r == url
  {
    if url in f.redirections then f.redirections[url] else url
  }

  /** After recording a redirect, the URL leads to its target, a later record
      overwrites an earlier one, and every other URL leads where it led before. */
  lemma EffectiveUrlAfterAdd(f: Fixer, fromUrl: string, toUrl: string, toUrl2: string, other: string)
    requires other != fromUrl
    ensures EffectiveUrl(AddRedirection(f, fromUrl, toUrl), fromUrl) == toUrl
    ensures EffectiveUrl(AddRedirection(AddRedirection(f, fromUrl, toUrl), fromUrl, toUrl2), fromUrl) == toUrl2
    ensures EffectiveUrl(AddRedirection(f, fromUrl, toUrl), other) == EffectiveUrl(f, other)
  {
  }

  /** A fresh record sends every URL to itself. */
  lemma EffectiveUrlUnrecorded(url: string)
    ensures EffectiveUrl(New(), url) == url
  {
  }

  /** `path_from_url`: the path component, or an error when the URL does not
      parse. */
  function PathFromUrl(parse: string -> Option<string>, url: string): (r: Result<string>)
    ensures r.Ok? <==> parse(url).Some?
    ensures r.Ok? ==> r.value == parse(url).value
  {
    match parse(url)
    case Some(path) => Ok(path)
    case None => Err("cannot parse URL: " + url)
  }

  /** The (from path, to path) pairs of the redirects in iteration order; the
      first URL that does not parse is the error. */
  function PathPairs(redirects: map<string, string>, order: seq<string>, parse: string -> Option<string>)
    : (r: Result<seq<(string, string)>>)
    requires forall i :: 0 <= i < |order| ==> order[i] in redirects
    ensures r.Ok? <==> forall i :: 0 <= i < |order| ==> Parses(parse, redirects, order[i])
    ensures r.Ok? ==> |r.value| == |order| && forall i :: 0 <= i < |order| ==>
      r.value[i] == (parse(order[i]).value, parse(redirects[order[i]]).value)
    decreases |order|
  {
    if |order| == 0 then Ok([])
    else
      var u := order[0];
      match PathFromUrl(parse, u)
      case Err(e) => Err(e)
      case Ok(fromPath) =>
        match PathFromUrl(parse, redirects[u])
        case Err(e) => Err(e)
        case Ok(toPath) =>
          match PathPairs(redirects, order[1..], parse)
          case Err(e) => Err(e)
          case Ok(rest) =>
            assert forall i :: 1 <= i < |order| ==> order[1..][i - 1] == order[i];
            Ok([(fromPath, toPath)] + rest)
  }

  /** Both ends of the redirect from `u` parse. */
  predicate Parses(parse: string -> Option<string>, redirects: map<string, string>, u: string)
    requires u in redirects
  {
    parse(u).Some? && parse(redirects[u]).Some?
  }

  /** `apply_redirections_to_paths`: the status and the page map afterwards.
      `redirectOrder` and `pageOrder` are the iteration orders of the redirect map
      and of the page map. */
  function ApplyToPaths(f: Fixer, parse: string -> Option<string>, paths: Pages,
                        redirectOrder: seq<string>, pageOrder: seq<string>): (r: (Result<()>, Pages))
    requires Enumerates(redirectOrder, f.redirections)
    ensures r.0.Err? ==> r.1 == paths
  {
    match PathPairs(f.redirections, redirectOrder, parse)
    case Err(e) => (Err(e), paths)
    case Ok(pairs) => (Ok(()), Remap(paths, BuildMapping(pairs), pageOrder))
  }

  /** The fix-up fails exactly when some recorded URL, at either end, does not
      parse, and then the page map is untouched. */
  lemma ApplyToPathsError(f: Fixer, parse: string -> Option<string>, paths: Pages,
                          redirectOrder: seq<string>, pageOrder: seq<string>)
    requires Enumerates(redirectOrder, f.redirections)
    ensures var r := ApplyToPaths(f, parse, paths, redirectOrder, pageOrder);
      (r.0.Err? <==> exists u :: u in f.redirections && !Parses(parse, f.redirections, u))
      && (r.0.Err? ==> r.1 == paths)
  {
    var r := ApplyToPaths(f, parse, paths, redirectOrder, pageOrder);
    if r.0.Err? {
      var i :| 0 <= i < |redirectOrder| && !Parses(parse, f.redirections, redirectOrder[i]);
      assert redirectOrder[i] in f.redirections;
    }
  }

  /** `k` is where some recorded redirect leads, as a path. */
  ghost predicate RedirectTarget(f: Fixer, parse: string -> Option<string>, k: string) {
    exists u :: u in f.redirections && Parses(parse, f.redirections, u) && k == parse(f.redirections[u]).value
  }

  /** No recorded redirect that changes the path starts at a path whose lowercase
      is that of `k`. */
  ghost predicate NotRedirected(f: Fixer, parse: string -> Option<string>, k: string) {
    forall u :: u in f.redirections && Parses(parse, f.redirections, u) && Lower(parse(u).value) == Lower(k) ==>
      parse(u).value == parse(f.redirections[u]).value
  }

  /** On success: every surviving path is a redirect target or an original path
      that no redirect moves, every content was there before, and the map never
      grows. */
  lemma ApplyToPathsKeys(f: Fixer, parse: string -> Option<string>, paths: Pages,
                         redirectOrder: seq<string>, pageOrder: seq<string>)
    requires Enumerates(redirectOrder, f.redirections)
    requires Enumerates(pageOrder, paths)
    ensures var r := ApplyToPaths(f, parse, paths, redirectOrder, pageOrder);
      r.0.Ok? ==>
        && (forall k :: k in r.1 ==> RedirectTarget(f, parse, k) || (k in paths && NotRedirected(f, parse, k)))
        && r.1.Values <= paths.Values
        && |r.1| <= |paths|
  {
    var pp := PathPairs(f.redirections, redirectOrder, parse);
    if pp.Ok? {
      var pairs := pp.value;
      var mapping := BuildMapping(pairs);
      RemapKeys(paths, mapping, pageOrder);
      BuildMappingValues(pairs);
      MappedIsTarget(f, parse, redirectOrder, pairs);
      forall k | Lower(k) !in mapping ensures NotRedirected(f, parse, k) {
        UnmappedNotRedirected(f, parse, redirectOrder, pairs, k);
      }
    }
  }

  lemma MappedIsTarget(f: Fixer, parse: string -> Option<string>, redirectOrder: seq<string>,
                       pairs: seq<(string, string)>)
    requires Enumerates(redirectOrder, f.redirections)
    requires PathPairs(f.redirections, redirectOrder, parse) == Ok(pairs)
    ensures forall k :: k in BuildMapping(pairs).Values ==> RedirectTarget(f, parse, k)
  {
    var mapping := BuildMapping(pairs);
    BuildMappingValues(pairs);
    forall k | k in mapping.Values ensures RedirectTarget(f, parse, k) {
      var m :| m in mapping && mapping[m] == k;
      var i :| 0 <= i < |pairs| && Recorded(pairs[i]) && mapping[m] == pairs[i].1;
      assert redirectOrder[i] in f.redirections;
      assert Parses(parse, f.redirections, redirectOrder[i]);
    }
  }

  lemma UnmappedNotRedirected(f: Fixer, parse: string -> Option<string>, redirectOrder: seq<string>,
                              pairs: seq<(string, string)>, k: string)
    requires Enumerates(redirectOrder, f.redirections)
    requires PathPairs(f.redirections, redirectOrder, parse) == Ok(pairs)
    requires Lower(k) !in BuildMapping(pairs)
    ensures NotRedirected(f, parse, k)
  {
    forall u | u in f.redirections && Parses(parse, f.redirections, u) && Lower(parse(u).value) == Lower(k)
      ensures parse(u).value == parse(f.redirections[u]).value
    {
      var i :| 0 <= i < |redirectOrder| && redirectOrder[i] == u;
      assert pairs[i] == (parse(u).value, parse(f.redirections[u]).value);
    }
  }

  /** With no redirect recorded the page map comes back unchanged. */
  lemma ApplyToPathsNoRedirections(parse: string -> Option<string>, paths: Pages, pageOrder: seq<string>)
    ensures ApplyToPaths(New(), parse, paths, [], pageOrder) == (Ok(()), paths)
  {
    RemapEmptyMapping(paths, pageOrder);
  }

  /** A page at "/a" and a redirect from a URL with path "/a" to one with path
      "/b": the page moves to "/b". */
  lemma ApplyToPathsExample(parse: string -> Option<string>, fromUrl: string, toUrl: string)
    requires fromUrl != toUrl
    requires parse(fromUrl) == Some("/a") && parse(toUrl) == Some("/b")
    ensures ApplyToPaths(AddRedirection(New(), fromUrl, toUrl), parse, map["/a" := "X"], [fromUrl], ["/a"]).1
      == map["/b" := "X"]
  {
    var f := AddRedirection(New(), fromUrl, toUrl);
    assert f.redirections == map[fromUrl := toUrl];
    assert Lower("/a") == "/a";
    var pairs := PathPairs(f.redirections, [fromUrl], parse).value;
    assert pairs == [("/a", "/b")];
    assert BuildMapping(pairs) == map["/a" := "/b"] by {
      assert pairs[..0] == [];
    }
    assert map["/a" := "X"] - {"/a"} == map[];
  }
}
