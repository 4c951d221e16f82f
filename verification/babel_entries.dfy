/** `BabelEntriesFilter` (src/docs/babel/entries.rs): the one index entry of a
    Babel page. The page's first `<h1>` text is an input (None when the page has
    no heading). The category table is a `HashMap`, so the order in which it is
    searched is an input too; the table is built so that the order cannot change
    the answer. */
module BabelEntries {
  import opened Wrappers
  import opened Strings
  import opened Collections
  import Filter

  const USAGE: seq<string> := [
    "Options", "Plugins", "Config Files", "Compiler assumptions", "@babel/cli",
    "@babel/polyfill", "@babel/plugin-transform-runtime", "@babel/register"]
  const PRESETS: seq<string> := ["@babel/preset"]
  const TOOLING: seq<string> := [
    "@babel/parser", "@babel/core", "@babel/generator", "@babel/code-frame",
    "@babel/helper", "@babel/runtime", "@babel/template", "@babel/traverse",
    "@babel/types", "@babel/standalone"]

  /** `ENTRIES`: category to the name prefixes that put a page in it. */
  const ENTRIES: map<string, seq<string>> := map["Usage" := USAGE, "Presets" := PRESETS, "Tooling" := TOOLING]

  const OTHER_PLUGINS: string := "Other Plugins"
  const PLUGIN_MARK: string := "babel-plugin"
  const DEFAULT_TYPE: string := "Miscellaneous"

  /** Some prefix of the list starts `name`. */
  function AnyStartsWith(name: string, prefixes: seq<string>): (r: bool)
    ensures r <==> exists i :: 0 <= i < |prefixes| && StartsWith(name, prefixes[i])
    decreases |prefixes|
  {
    if |prefixes| == 0 then false
    else StartsWith(name, prefixes[0]) || AnyStartsWith(name, prefixes[1..])
  }

  /** The category `name` falls in under `ENTRIES`. */
  predicate InCategory(name: string, category: string) {
    category in ENTRIES && AnyStartsWith(name, ENTRIES[category])
  }

  /** The first category in `order` that `name` falls in. */
  function FirstCategory(order: seq<string>, name: string): (r: Option<string>)
    ensures r.Some? ==> r.value in order && InCategory(name, r.value)
    ensures r.None? <==> forall i :: 0 <= i < |order| ==> !InCategory(name, order[i])
    decreases |order|
  {
    if |order| == 0 then None
    else if InCategory(name, order[0]) then Some(order[0])
    else FirstCategory(order[1..], name)
  }

  /** `get_type`, searching the table in the enumeration order `order`: the
      category one of whose prefixes starts `name`; failing that "Other Plugins"
      when the page path mentions "babel-plugin"; failing that nothing. */
  function GetType(order: seq<string>, name: string, subpath: string): (r: Option<string>)
    requires Enumerates(order, ENTRIES)
    ensures forall c :: InCategory(name, c) ==> r == Some(c)
    ensures (forall c :: !InCategory(name, c)) ==>
              r == if Contains(subpath, PLUGIN_MARK) then Some(OTHER_PLUGINS) else None
  {
    match FirstCategory(order, name)
    case Some(c) =>
      assert forall c' :: InCategory(name, c') ==> c' == c by {
        forall c' | InCategory(name, c') ensures c' == c {
          OneCategory(name, c, c');
        }
      }
      Some(c)
    case None =>
      if Contains(subpath, PLUGIN_MARK) then Some(OTHER_PLUGINS) else None
  }

  /** Two prefixes of one name are prefixes of each other. */
  lemma PrefixesComparable(name: string, p: string, q: string)
    requires StartsWith(name, p) && StartsWith(name, q)
    ensures p <= q || q <= p
  {
    if |p| <= |q| {
      assert q[..|p|] == name[..|p|] == p;
    } else {
      assert p[..|q|] == name[..|q|] == q;
    }
  }

  /** Neither string is a prefix of the other. */
  predicate Incomparable(p: string, q: string) {
    !(p <= q) && !(q <= p)
  }

  /** Differing at a position both have makes two strings incomparable. */
  lemma DifferAt(p: string, q: string, k: nat)
    requires k < |p| && k < |q| && p[k] != q[k]
    ensures Incomparable(p, q)
  {
  }

  /** No prefix of one category is comparable with one of another, so at most
      one category holds any name. */
  lemma CategoriesIncomparable()
    ensures forall i, j :: 0 <= i < |USAGE| && 0 <= j < |PRESETS| ==> Incomparable(USAGE[i], PRESETS[j])
    ensures forall i, j :: 0 <= i < |USAGE| && 0 <= j < |TOOLING| ==> Incomparable(USAGE[i], TOOLING[j])
    ensures forall i, j :: 0 <= i < |PRESETS| && 0 <= j < |TOOLING| ==> Incomparable(PRESETS[i], TOOLING[j])
  {
    forall i, j | 0 <= i < |USAGE| && 0 <= j < |PRESETS| ensures Incomparable(USAGE[i], PRESETS[j]) {
      if i < 4 { DifferAt(USAGE[i], PRESETS[j], 0); }
      else if i == 5 || i == 6 { DifferAt(USAGE[i], PRESETS[j], 8); }
      else { DifferAt(USAGE[i], PRESETS[j], 7); }
    }
    forall i, j | 0 <= i < |USAGE| && 0 <= j < |TOOLING| ensures Incomparable(USAGE[i], TOOLING[j]) {
      if i < 4 { DifferAt(USAGE[i], TOOLING[j], 0); }
      else if i == 4 { CliDiffers(j); }
      else if i == 5 || i == 6 { PlDiffers(USAGE[i], j); }
      else { RegisterDiffers(j); }
    }
    forall i, j | 0 <= i < |PRESETS| && 0 <= j < |TOOLING| ensures Incomparable(PRESETS[i], TOOLING[j]) {
      PlDiffers(PRESETS[i], j);
    }
  }

  lemma CliDiffers(j: nat)
    requires j < |TOOLING|
    ensures Incomparable(USAGE[4], TOOLING[j])
  {
    if j == 1 || j == 3 { DifferAt(USAGE[4], TOOLING[j], 8); }
    else { DifferAt(USAGE[4], TOOLING[j], 7); }
  }

  lemma RegisterDiffers(j: nat)
    requires j < |TOOLING|
    ensures Incomparable(USAGE[7], TOOLING[j])
  {
    if j == 5 { DifferAt(USAGE[7], TOOLING[j], 8); }
    else { DifferAt(USAGE[7], TOOLING[j], 7); }
  }

  /** "@babel/p…" prefixes other than "@babel/pa…" against the tooling list. */
  lemma PlDiffers(p: string, j: nat)
    requires p in {USAGE[5], USAGE[6], PRESETS[0]}
    requires j < |TOOLING|
    ensures Incomparable(p, TOOLING[j])
  {
    if j == 0 { DifferAt(p, TOOLING[j], 8); }
    else { DifferAt(p, TOOLING[j], 7); }
  }

  /** A name falls in at most one category. */
  lemma OneCategory(name: string, c: string, c': string)
    requires InCategory(name, c) && InCategory(name, c')
    ensures c == c'
  {
    CategoriesIncomparable();
    var i :| 0 <= i < |ENTRIES[c]| && StartsWith(name, ENTRIES[c][i]);
    var j :| 0 <= j < |ENTRIES[c']| && StartsWith(name, ENTRIES[c'][j]);
    PrefixesComparable(name, ENTRIES[c][i], ENTRIES[c'][j]);
  }

  /** The table's iteration order never changes the type. */
  lemma GetTypeOrderFree(o1: seq<string>, o2: seq<string>, name: string, subpath: string)
    requires Enumerates(o1, ENTRIES) && Enumerates(o2, ENTRIES)
    ensures GetType(o1, name, subpath) == GetType(o2, name, subpath)
  {
    if c :| InCategory(name, c) {
    }
  }

  /** `get_entries`: one entry, named by the first heading ("" without one), at
      the page's path, of the page's type or "Miscellaneous". */
  function GetEntries(order: seq<string>, h1: Option<string>, currentPath: string): (r: seq<Filter.EntryTriple>)
    requires Enumerates(order, ENTRIES)
    ensures |r| == 1
    ensures r[0].0 == h1.GetOr("") && r[0].1 == currentPath
    ensures GetType(order, h1.GetOr(""), currentPath).Some? ==> r[0].2 == GetType(order, h1.GetOr(""), currentPath).value
    ensures GetType(order, h1.GetOr(""), currentPath).None? ==> r[0].2 == DEFAULT_TYPE
  {
    var name := h1.GetOr("");
    [(name, currentPath, GetType(order, name, currentPath).GetOr(DEFAULT_TYPE))]
  }

  /** `apply`: the page is passed through. */
  function Apply(html: string): (r: string)
    ensures r == html
  {
    html
  }

  /** "@babel/parser" is a tooling page, whatever the table order. */
  lemma ParserPageScenario(order: seq<string>)
    requires Enumerates(order, ENTRIES)
    ensures GetEntries(order, Some("@babel/parser"), "docs/babel-parser.html") ==
            [("@babel/parser", "docs/babel-parser.html", "Tooling")]
  {
    assert StartsWith("@babel/parser", TOOLING[0]);
    assert InCategory("@babel/parser", "Tooling");
  }

  /** A heading matching no prefix, on a page whose path mentions
      "babel-plugin", is listed under "Other Plugins". */
  lemma PluginPageScenario(order: seq<string>)
    requires Enumerates(order, ENTRIES)
    ensures GetEntries(order, Some("My Custom Plugin"), "docs/plugins/babel-plugin-my-custom.html") ==
            [("My Custom Plugin", "docs/plugins/babel-plugin-my-custom.html", OTHER_PLUGINS)]
  {
    var name := "My Custom Plugin";
    var path := "docs/plugins/babel-plugin-my-custom.html";
    NoCategory(name);
    var a := "docs/plugins/";
    assert path == a + PLUGIN_MARK + "-my-custom.html";
    assert OccursAt(path, PLUGIN_MARK, |a|) by {
      assert path[|a|..|a| + |PLUGIN_MARK|] == PLUGIN_MARK;
    }
    ContainsIff(path, PLUGIN_MARK);
  }

  /** "Babel Usage Guide" at "docs/usage.html" is "Miscellaneous": no prefix
      starts the name and the path does not mention "babel-plugin", so the type
      "Guide" that the module's tests expect is never produced. */
  lemma UsageGuideIsMiscellaneous(order: seq<string>)
    requires Enumerates(order, ENTRIES)
    ensures GetEntries(order, Some("Babel Usage Guide"), "docs/usage.html")[0].2 == DEFAULT_TYPE
  {
    NoCategory("Babel Usage Guide");
    AbsentChar("docs/usage.html", PLUGIN_MARK, 0);
  }

  /** A name whose first char starts no prefix of the table is in no category. */
  lemma NoCategory(name: string)
    requires |name| > 0 && name[0] !in {'O', 'P', 'C', '@'}
    ensures forall c :: !InCategory(name, c)
  {
    forall c | c in ENTRIES ensures !AnyStartsWith(name, ENTRIES[c]) {
      forall i | 0 <= i < |ENTRIES[c]| ensures !StartsWith(name, ENTRIES[c][i]) {
        assert ENTRIES[c][i][0] in {'O', 'P', 'C', '@'};
      }
    }
  }
}
