/** The redirect fix-up shared in shape by `UrlScraper::run`
    (src/core/scraper/url_scraper.rs) and `FixRedirections::apply_redirections_to_paths`
    (src/core/scraper/fix_redirections.rs): a map from lowercased source paths to
    target paths is built from the recorded redirects, then every stored page whose
    lowercased path is a source is moved to the target path. The two copies differ
    only in how a URL becomes a path, so each caller turns its redirects into
    (from path, to path) pairs in the redirect map's iteration order. */
module PathRemap {
  import opened Strings

  type Pages = map<string, string>

  /** The path mapping: a pair whose paths differ maps the lowercased from-path to
      the to-path, and a later pair overwrites an earlier one. */
  function BuildMapping(pairs: seq<(string, string)>): (m: map<string, string>)
    ensures forall k :: k in m <==> exists i :: 0 <= i < |pairs| && Recorded(pairs[i]) && Lower(pairs[i].0) == k
    decreases |pairs|
  {
    if |pairs| == 0 then map[]
    else
      var m := BuildMapping(pairs[..|pairs| - 1]);
      var p := pairs[|pairs| - 1];
      assert forall i :: 0 <= i < |pairs| - 1 ==> pairs[..|pairs| - 1][i] == pairs[i];
      if Recorded(p) then m[Lower(p.0) := p.1] else m
  }

  /** Only a redirect that changes the path is recorded. */
  predicate Recorded(p: (string, string)) {
    p.0 != p.1
  }

  /** The value under each key is the to-path of the last recorded pair with that
      lowercased from-path. */
  lemma {:induction false} BuildMappingLastWins(pairs: seq<(string, string)>, i: nat)
    requires i < |pairs| && Recorded(pairs[i])
    requires forall j :: i < j < |pairs| && Recorded(pairs[j]) ==> Lower(pairs[j].0) != Lower(pairs[i].0)
    ensures BuildMapping(pairs)[Lower(pairs[i].0)] == pairs[i].1
    decreases |pairs|
  {
    if i < |pairs| - 1 {
      var init := pairs[..|pairs| - 1];
      BuildMappingLastWins(init, i);
    }
  }

  /** Every value of the mapping is the to-path of a recorded pair. */
  lemma {:induction false} BuildMappingValues(pairs: seq<(string, string)>)
    ensures forall k :: k in BuildMapping(pairs) ==>
      exists i :: 0 <= i < |pairs| && Recorded(pairs[i]) && BuildMapping(pairs)[k] == pairs[i].1
    decreases |pairs|
  {
    if |pairs| > 0 {
      var init := pairs[..|pairs| - 1];
      BuildMappingValues(init);
      forall k | k in BuildMapping(pairs)
        ensures exists i :: 0 <= i < |pairs| && Recorded(pairs[i]) && BuildMapping(pairs)[k] == pairs[i].1
      {
        var p := pairs[|pairs| - 1];
        if Recorded(p) && k == Lower(p.0) {
          assert BuildMapping(pairs)[k] == pairs[|pairs| - 1].1;
        } else {
          var i :| 0 <= i < |init| && Recorded(init[i]) && BuildMapping(init)[k] == init[i].1;
          assert pairs[i] == init[i];
        }
      }
    }
  }

  /** One turn of the remap loop for the page path `path`: if its lowercase is
      mapped and the page is still present, its content moves to the target. */
  function Step(pages: Pages, mapping: map<string, string>, path: string): (r: Pages)
    ensures |r| <= |pages|
    ensures r.Values <= pages.Values
  {
    if Lower(path) in mapping && path in pages then
      var content := pages[path];
      var rest := pages - {path};
      assert |rest| == |pages| - 1;
      assert forall v :: v in rest.Values ==> v in pages.Values by {
        forall v | v in rest.Values ensures v in pages.Values {
          var k :| k in rest && rest[k] == v;
          assert pages[k] == v;
        }
      }
      rest[mapping[Lower(path)] := content]
    else pages
  }

  /** The remap loop over a snapshot of the page paths, in iteration order. */
  function Remap(pages: Pages, mapping: map<string, string>, order: seq<string>): (r: Pages)
    ensures |r| <= |pages|
    ensures r.Values <= pages.Values
    decreases |order|
  {
    if |order| == 0 then pages
    else Remap(Step(pages, mapping, order[0]), mapping, order[1..])
  }

  /** An empty mapping moves nothing. */
  lemma {:induction false} RemapEmptyMapping(pages: Pages, order: seq<string>)
    ensures Remap(pages, map[], order) == pages
    decreases |order|
  {
    if |order| > 0 {
      RemapEmptyMapping(pages, order[1..]);
    }
  }

  /** The key invariant of the loop: a key present now is a mapping target, or an
      original key whose lowercase is unmapped or whose turn has not come yet. */
  ghost predicate KeysAccounted(pages: Pages, mapping: map<string, string>, original: set<string>, pending: seq<string>) {
    forall k :: k in pages ==> k in mapping.Values || (k in original && (Lower(k) !in mapping || k in pending))
  }

  lemma StepAccounted(pages: Pages, mapping: map<string, string>, original: set<string>, order: seq<string>)
    requires |order| > 0
    requires KeysAccounted(pages, mapping, original, order)
    ensures KeysAccounted(Step(pages, mapping, order[0]), mapping, original, order[1..])
  {
    var path := order[0];
    var r := Step(pages, mapping, path);
    forall k | k in r
      ensures k in mapping.Values || (k in original && (Lower(k) !in mapping || k in order[1..]))
    {
      if Lower(path) in mapping && path in pages && k == mapping[Lower(path)] {
        assert k in mapping.Values;
      } else {
        assert k in pages;
        assert k in order ==> k == path || k in order[1..];
      }
    }
  }

  lemma {:induction false} RemapAccounted(pages: Pages, mapping: map<string, string>, original: set<string>, order: seq<string>)
    requires KeysAccounted(pages, mapping, original, order)
    ensures KeysAccounted(Remap(pages, mapping, order), mapping, original, [])
    decreases |order|
  {
    if |order| > 0 {
      StepAccounted(pages, mapping, original, order);
      RemapAccounted(Step(pages, mapping, order[0]), mapping, original, order[1..]);
    }
  }

  /** What the fix-up guarantees when the loop runs over every page path: each
      surviving path is a redirect target or an original path whose lowercase is
      not a redirected path; every content was there before; and the map never
      grows. */
  lemma RemapKeys(pages: Pages, mapping: map<string, string>, order: seq<string>)
    requires forall k :: k in pages ==> k in order
    ensures var r := Remap(pages, mapping, order);
      && (forall k :: k in r ==> k in mapping.Values || (k in pages && Lower(k) !in mapping))
      && r.Values <= pages.Values
      && |r| <= |pages|
  {
    RemapAccounted(pages, mapping, pages.Keys, order);
  }

  /** A page whose lowercased path is not mapped, and that no redirect targets,
      keeps its path and content. */
  lemma {:induction false} RemapKeepsUntouched(pages: Pages, mapping: map<string, string>, order: seq<string>, k: string)
    requires k in pages && Lower(k) !in mapping && k !in mapping.Values
    ensures var r := Remap(pages, mapping, order); k in r && r[k] == pages[k]
    decreases |order|
  {
    if |order| > 0 {
      var s := Step(pages, mapping, order[0]);
      if Lower(order[0]) in mapping && order[0] in pages {
        assert order[0] != k;
      }
      RemapKeepsUntouched(s, mapping, order[1..], k);
    }
  }
}
