/** `HtmlEntriesFilter` (src/docs/html/entries.rs): the index entries of an MDN
    HTML reference page. The page's slug is the filter context's current path;
    what the filter reads from the DOM is given as a `Page`. */
module HtmlEntries {
  import opened Wrappers
  import opened Strings
  import Filter

  type EntryTriple = Filter.EntryTriple

  const HEADING_SLUG: string := "Element/Heading_Elements"
  const HEADINGS: seq<string> := ["h1", "h2", "h3", "h4", "h5", "h6"]
  /** `ADDITIONAL_ENTRIES`: slugs whose page lists a fixed set of elements. */
  const ADDITIONAL_ENTRIES: seq<(string, seq<string>)> := [(HEADING_SLUG, HEADINGS)]

  const ELEMENT_PREFIX: string := "Element."
  const GLOBAL_ATTRIBUTES: string := "Global attributes."
  const ATTRIBUTE_SUFFIX: string := " (attribute)"
  const INPUT_PREFIX: string := "input."
  const NON_STANDARD: string := "not on a standards track"
  const GLOBAL_ATTRIBUTE: string := "Global attribute"

  /** One row of the attribute table: the text of the cell after the first one
      (None when there is none), the text of the first `<code>` in the first
      cell (None when there is none), and the text of the first cell. */
  datatype AttrRow = AttrRow(nextText: Option<string>, code: Option<string>, text: string)

  /** What the filter reads from the page: whether some element is marked
      deprecated, non-standard or obsolete; the text of the first overhead or
      block indicator; the rows of the standard table; and the texts of the
      `<code>` elements heading its rows. */
  datatype Page = Page(obsolete: bool, indicator: Option<string>, attrRows: seq<AttrRow>, linkCodes: seq<string>)

  predicate NoUpper(s: string) {
    forall i :: 0 <= i < |s| ==> !IsUpper(s[i])
  }

  /** The slug made readable: '_' to ' ', '/' to '.', trimmed, every
      "Element." removed, lowercased. */
  function PlainName(slug: string): (r: string)
    ensures NoUpper(r)
    ensures '_' !in r && '/' !in r && |r| <= |slug|
  {
    var name := Trim(ReplaceChar(ReplaceChar(slug, '_', ' '), '/', '.'));
    ReadableKeepsOut(slug);
    var bare := ReplaceAll(name, ELEMENT_PREFIX, "");
    ReplaceAllDeleteKeepsOut(name, ELEMENT_PREFIX, '_');
    ReplaceAllDeleteKeepsOut(name, ELEMENT_PREFIX, '/');
    LowerKeepsOut(bare, '_');
    LowerKeepsOut(bare, '/');
    Lower(bare)
  }

  /** The readable slug has neither '_' nor '/' and is no longer than the slug. */
  lemma ReadableKeepsOut(slug: string)
    ensures var name := Trim(ReplaceChar(ReplaceChar(slug, '_', ' '), '/', '.'));
      '_' !in name && '/' !in name && |name| <= |slug|
  {
    var spaced := ReplaceChar(slug, '_', ' ');
    var dotted := ReplaceChar(spaced, '/', '.');
    assert '_' !in spaced by {
      forall k | 0 <= k < |spaced| ensures spaced[k] != '_' { }
    }
    assert '_' !in dotted by {
      forall k | 0 <= k < |dotted| ensures dotted[k] != '_' {
        assert spaced[k] in spaced;
      }
    }
    assert '/' !in dotted by {
      forall k | 0 <= k < |dotted| ensures dotted[k] != '/' { }
    }
    TrimKeepsOut(dotted, '_');
    TrimKeepsOut(dotted, '/');
  }

  /** Lowercasing leaves a char that is not a letter out. */
  lemma LowerKeepsOut(s: string, c: char)
    requires c !in s && !IsUpper(c) && !('a' <= c <= 'z')
    ensures c !in Lower(s)
  {
    var r := Lower(s);
    forall k | 0 <= k < |r| ensures r[k] != c {
      assert s[k] in s;
    }
  }

  /** A slug with no '_', no '/', no "Element." and no whitespace at either
      end is named by its lowercase. */
  lemma PlainNameOfPlainSlug(slug: string)
    requires '_' !in slug && '/' !in slug && !Contains(slug, ELEMENT_PREFIX)
    requires |slug| > 0 && !IsWhitespace(slug[0]) && !IsWhitespace(slug[|slug| - 1])
    ensures PlainName(slug) == Lower(slug)
  {
    ReplaceCharAbsent(slug, '_', ' ');
    ReplaceCharAbsent(slug, '/', '.');
    TrimUnchanged(slug);
    ReplaceAllAbsent(slug, ELEMENT_PREFIX, "");
  }

  /** The page of an element is named after it: "Element/<w>" gives `w`. */
  lemma PlainNameOfElement(w: string)
    requires LowerWord(w)
    ensures PlainName("Element/" + w) == w
  {
    ElementSlugDotted(w);
    StripLeadingElement(w);
    LowerUnchanged(w);
  }

  lemma ElementSlugDotted(w: string)
    requires LowerWord(w)
    ensures Trim(ReplaceChar(ReplaceChar("Element/" + w, '_', ' '), '/', '.')) == ELEMENT_PREFIX + w
  {
    var slug := "Element/" + w;
    var dotted := ELEMENT_PREFIX + w;
    assert '_' !in slug by {
      forall k | 0 <= k < |slug| ensures slug[k] != '_' {
        if k >= 8 {
          assert slug[k] == w[k - 8];
        }
      }
    }
    ReplaceCharAbsent(slug, '_', ' ');
    var r := ReplaceChar(slug, '/', '.');
    forall k | 0 <= k < |slug| ensures r[k] == dotted[k] {
      if k >= 8 {
        assert slug[k] == w[k - 8] && dotted[k] == w[k - 8];
      }
    }
    assert dotted[|dotted| - 1] == w[|w| - 1];
    TrimUnchanged(dotted);
  }

  lemma StripLeadingElement(w: string)
    requires LowerWord(w)
    ensures ReplaceAll(ELEMENT_PREFIX + w, ELEMENT_PREFIX, "") == w
  {
    assert ELEMENT_PREFIX <= ELEMENT_PREFIX + w;
    assert (ELEMENT_PREFIX + w)[|ELEMENT_PREFIX|..] == w;
    AbsentChar(w, ELEMENT_PREFIX, 0);
    ReplaceAllAbsent(w, ELEMENT_PREFIX, "");
  }

  /** `[-\w]`, with `\w` read as the ASCII word characters. */
  predicate WordChar(c: char) {
    ('a' <= c <= 'z') || ('A' <= c <= 'Z') || ('0' <= c <= '9') || c == '_' || c == '-'
  }

  /** `input\.[-\w]+` can start matching at `i`. */
  predicate InputAt(s: string, i: int) {
    OccursAt(s, INPUT_PREFIX, i) && i + |INPUT_PREFIX| < |s| && WordChar(s[i + |INPUT_PREFIX|])
  }

  /** The longest prefix of word characters. */
  function WordRun(s: string): (r: string)
    ensures |r| <= |s| && r == s[..|r|]
    ensures forall i :: 0 <= i < |r| ==> WordChar(r[i])
    ensures |r| < |s| ==> !WordChar(s[|r|])
    decreases |s|
  {
    if |s| > 0 && WordChar(s[0]) then [s[0]] + WordRun(s[1..]) else ""
  }

  /** The leftmost position from `from` on where the pattern matches. */
  function FindInput(s: string, from: nat): (r: Option<nat>)
    ensures r.Some? ==> from <= r.value && InputAt(s, r.value)
    ensures r.Some? ==> forall j :: from <= j < r.value ==> !InputAt(s, j)
    ensures r.None? ==> forall j :: from <= j ==> !InputAt(s, j)
    decreases |s| - from
  {
    if from + |INPUT_PREFIX| >= |s| then None
    else if InputAt(s, from) then Some(from)
    else FindInput(s, from + 1)
  }

  /** The capture of `input\.([-\w]+)` in its leftmost match: the whole run of
      word characters after the first "input." that one follows. */
  function InputType(name: string): (r: Option<string>)
    ensures r.None? <==> forall j :: !InputAt(name, j)
    ensures r.Some? ==> exists i :: InputAt(name, i) && (forall j :: 0 <= j < i ==> !InputAt(name, j)) &&
                                   r.value == WordRun(name[i + |INPUT_PREFIX|..])
  {
    match FindInput(name, 0)
    case Some(i) => Some(WordRun(name[i + |INPUT_PREFIX|..]))
    case None => None
  }

  /** `get_name`, branch by branch. The "Global attributes." branch tests a
      name that has already been lowercased. */
  function GetName(slug: string): (r: string)
    ensures InputType(PlainName(slug)).None? ==> r == PlainName(slug)
    ensures InputType(PlainName(slug)).Some? ==> r == "input type=\"" + InputType(PlainName(slug)).value + "\""
  {
    var name := PlainName(slug);
    GlobalAttributesUnreachable(slug);
    var name := if StartsWith(name, GLOBAL_ATTRIBUTES) then ReplaceAll(name, GLOBAL_ATTRIBUTES, "") + ATTRIBUTE_SUFFIX else name;
    match InputType(name)
    case Some(t) => "input type=\"" + t + "\""
    case None => name
  }

  /** The lowercased name never starts with "Global attributes.", so `get_name`
      never appends " (attribute)" itself. */
  lemma GlobalAttributesUnreachable(slug: string)
    ensures !StartsWith(PlainName(slug), GLOBAL_ATTRIBUTES)
  {
    var n := PlainName(slug);
    if |n| > 0 {
      assert !IsUpper(n[0]) && IsUpper(GLOBAL_ATTRIBUTES[0]);
    }
  }

  /** Names come out without capitals. */
  lemma GetNameNoUpper(slug: string)
    ensures NoUpper(GetName(slug))
  {
    var name := PlainName(slug);
    if InputType(name).Some? {
      InputNameNoUpper(name);
    }
  }

  /** The input-type name built from a name without capitals has none. */
  lemma InputNameNoUpper(name: string)
    requires NoUpper(name) && InputType(name).Some?
    ensures NoUpper("input type=\"" + InputType(name).value + "\"")
  {
    var i := FindInput(name, 0).value;
    var rest := name[i + |INPUT_PREFIX|..];
    RunNoUpper(rest);
    NoUpperConcat("input type=\"", WordRun(rest));
    NoUpperConcat("input type=\"" + WordRun(rest), "\"");
  }

  lemma RunNoUpper(s: string)
    requires NoUpper(s)
    ensures NoUpper(WordRun(s))
  {
    var t := WordRun(s);
    assert forall k :: 0 <= k < |t| ==> t[k] == s[k];
  }

  lemma NoUpperConcat(a: string, b: string)
    requires NoUpper(a) && NoUpper(b)
    ensures NoUpper(a + b)
  {
    forall k | 0 <= k < |a + b| ensures !IsUpper((a + b)[k]) {
      if k >= |a| {
        assert (a + b)[k] == b[k - |a|];
      }
    }
  }

  /** A lowercase word: ASCII letters, digits and '-'. */
  predicate LowerWord(w: string) {
    |w| > 0 && forall k :: 0 <= k < |w| ==> ('a' <= w[k] <= 'z') || ('0' <= w[k] <= '9') || w[k] == '-'
  }

  /** The page of an input type is named after it: the slug
      "Element/input/<w>" gives `input type="<w>"`. */
  lemma InputElementName(w: string)
    requires LowerWord(w)
    ensures GetName("Element/input/" + w) == "input type=\"" + w + "\""
  {
    var name := INPUT_PREFIX + w;
    PlainInputName(w);
    assert InputAt(name, 0);
    assert FindInput(name, 0) == Some(0);
    assert name[|INPUT_PREFIX|..] == w;
    WholeRun(w);
  }

  lemma PlainInputName(w: string)
    requires LowerWord(w)
    ensures PlainName("Element/input/" + w) == INPUT_PREFIX + w
  {
    DottedSlug(w);
    StripElementPrefix(w);
    InputNameLower(w);
  }

  lemma InputNameLower(w: string)
    requires LowerWord(w)
    ensures Lower(INPUT_PREFIX + w) == INPUT_PREFIX + w
  {
    var name := INPUT_PREFIX + w;
    forall i | 0 <= i < |name| ensures !IsUpper(name[i]) {
      if i >= |INPUT_PREFIX| {
        assert name[i] == w[i - |INPUT_PREFIX|];
      }
    }
    LowerUnchanged(name);
  }

  lemma DottedSlug(w: string)
    requires LowerWord(w)
    ensures Trim(ReplaceChar(ReplaceChar("Element/input/" + w, '_', ' '), '/', '.')) == "Element.input." + w
  {
    var slug := "Element/input/" + w;
    var dotted := "Element.input." + w;
    assert '_' !in slug by {
      forall k | 0 <= k < |slug| ensures slug[k] != '_' {
        if k >= 14 {
          assert slug[k] == w[k - 14];
        }
      }
    }
    ReplaceCharAbsent(slug, '_', ' ');
    ReplaceCharSlashes(w);
    assert dotted[|dotted| - 1] == w[|w| - 1];
    TrimUnchanged(dotted);
  }

  /** Replacing a char that does not occur changes nothing. */
  lemma ReplaceCharAbsent(s: string, a: char, b: char)
    requires a !in s
    ensures ReplaceChar(s, a, b) == s
  {
    var r := ReplaceChar(s, a, b);
    forall k | 0 <= k < |s| ensures r[k] == s[k] {
      assert s[k] in s;
    }
  }

  /** The slug's two '/' become '.', and the word, which has none, is kept. */
  lemma ReplaceCharSlashes(w: string)
    requires LowerWord(w)
    ensures ReplaceChar("Element/input/" + w, '/', '.') == "Element.input." + w
  {
    var slug := "Element/input/" + w;
    var dotted := "Element.input." + w;
    var r := ReplaceChar(slug, '/', '.');
    forall k | 0 <= k < |slug| ensures r[k] == dotted[k] {
      if k >= 14 {
        assert slug[k] == w[k - 14] && dotted[k] == w[k - 14];
      }
    }
  }

  lemma StripElementPrefix(w: string)
    requires LowerWord(w)
    ensures ReplaceAll("Element.input." + w, ELEMENT_PREFIX, "") == INPUT_PREFIX + w
  {
    var name := INPUT_PREFIX + w;
    assert "Element.input." + w == ELEMENT_PREFIX + name;
    assert (ELEMENT_PREFIX + name)[|ELEMENT_PREFIX|..] == name;
    ReplaceAllAfter(INPUT_PREFIX, w, ELEMENT_PREFIX, "");
    AbsentChar(w, ELEMENT_PREFIX, 0);
    ReplaceAllAbsent(w, ELEMENT_PREFIX, "");
  }

  lemma {:induction false} WholeRun(w: string)
    requires forall k :: 0 <= k < |w| ==> WordChar(w[k])
    ensures WordRun(w) == w
    decreases |w|
  {
    if |w| > 0 {
      WholeRun(w[1..]);
      assert w == [w[0]] + w[1..];
    }
  }

  /** `get_type`: "CORS" or "Using" in the slug, then an obsolete marker, then
      the slug's prefix decide. There is always a type. */
  function GetType(slug: string, obsolete: bool): (r: Option<string>)
    ensures r.Some?
    ensures Contains(slug, "CORS") || Contains(slug, "Using") ==> r == Some("Miscellaneous")
    ensures !(Contains(slug, "CORS") || Contains(slug, "Using")) && obsolete ==> r == Some("Obsolete")
    ensures !(Contains(slug, "CORS") || Contains(slug, "Using")) && !obsolete ==>
      r == Some(if StartsWith(slug, "Global_attr") then "Attributes"
                else if StartsWith(slug, "Element/") then "Elements"
                else "Miscellaneous")
  {
    if Contains(slug, "CORS") || Contains(slug, "Using") then Some("Miscellaneous")
    else if obsolete then Some("Obsolete")
    else if StartsWith(slug, "Global_attr") then Some("Attributes")
    else if StartsWith(slug, "Element/") then Some("Elements")
    else Some("Miscellaneous")
  }

  /** `include_default_entry`: the heading page and pages whose first indicator
      says they are not on a standards track get no entry of their own. */
  function IncludeDefaultEntry(slug: string, indicator: Option<string>): (r: bool)
    ensures r <==> slug != HEADING_SLUG && !(indicator.Some? && Contains(indicator.value, NON_STANDARD))
  {
    if slug == HEADING_SLUG then false
    else if indicator.Some? && Contains(indicator.value, NON_STANDARD) then false
    else true
  }

  /** The element list `ADDITIONAL_ENTRIES` gives a slug, first match first. */
  function LookupAdditional(table: seq<(string, seq<string>)>, slug: string): (r: Option<seq<string>>)
    ensures r.None? <==> forall i :: 0 <= i < |table| ==> table[i].0 != slug
    ensures r.Some? ==> exists i :: 0 <= i < |table| && table[i].0 == slug && r.value == table[i].1
    decreases |table|
  {
    if |table| == 0 then None
    else if table[0].0 == slug then Some(table[0].1)
    else LookupAdditional(table[1..], slug)
  }

  /** An entry id: the name lowercased, spaces turned into '-'. */
  function EntryId(name: string): (r: string)
    ensures |r| == |name| && NoUpper(r) && ' ' !in r
  {
    ReplaceChar(Lower(name), ' ', '-')
  }

  /** The entries of the attribute table: rows whose next cell mentions
      "Global attribute" are skipped; the others are named by their code text,
      else their cell text, trimmed and marked " (attribute)". */
  function AttrEntries(rows: seq<AttrRow>): (r: seq<EntryTriple>)
    ensures |r| <= |rows|
    ensures forall k :: 0 <= k < |r| ==>
      EndsWith(r[k].0, ATTRIBUTE_SUFFIX) && r[k].1 == EntryId(r[k].0) && r[k].2 == "Attributes"
    decreases |rows|
  {
    if |rows| == 0 then []
    else
      var row := rows[0];
      var rest := AttrEntries(rows[1..]);
      if GlobalRow(row) then rest
      else
        [AttrEntry(row)] + rest
  }

  predicate GlobalRow(row: AttrRow) {
    Contains(row.nextText.GetOr(""), GLOBAL_ATTRIBUTE)
  }

  /** The entry of a row that is not skipped. */
  function AttrEntry(row: AttrRow): EntryTriple {
    var name := Trim(if row.code.Some? then row.code.value else row.text) + ATTRIBUTE_SUFFIX;
    (name, EntryId(name), "Attributes")
  }

  /** The table is read row by row: the entries of two runs of rows are those
      of the first, then those of the second. */
  lemma {:induction false} AttrEntriesAppend(a: seq<AttrRow>, b: seq<AttrRow>)
    ensures AttrEntries(a + b) == AttrEntries(a) + AttrEntries(b)
    decreases |a|
  {
    if |a| > 0 {
      AttrEntriesAppend(a[1..], b);
      assert (a + b)[1..] == a[1..] + b;
    } else {
      assert a + b == b;
    }
  }

  /** Without global rows, every row gives its entry, in order. */
  lemma {:induction false} AttrEntriesAllRows(rows: seq<AttrRow>)
    requires forall k :: 0 <= k < |rows| ==> !GlobalRow(rows[k])
    ensures |AttrEntries(rows)| == |rows|
    ensures forall k :: 0 <= k < |rows| ==> AttrEntries(rows)[k] == AttrEntry(rows[k])
    decreases |rows|
  {
    if |rows| > 0 {
      AttrEntriesAllRows(rows[1..]);
      var r := AttrEntries(rows);
      var t := AttrEntries(rows[1..]);
      assert !GlobalRow(rows[0]);
      assert r == [AttrEntry(rows[0])] + t;
      forall k | 0 <= k < |rows| ensures r[k] == AttrEntry(rows[k]) {
        if k > 0 {
          assert r[k] == t[k - 1] && rows[1..][k - 1] == rows[k];
        }
      }
    }
  }

  /** Global rows give no entries. */
  lemma {:induction false} AttrEntriesNoRows(rows: seq<AttrRow>)
    requires forall k :: 0 <= k < |rows| ==> GlobalRow(rows[k])
    ensures AttrEntries(rows) == []
    decreases |rows|
  {
    if |rows| > 0 {
      AttrEntriesNoRows(rows[1..]);
    }
  }

  /** The entries of the link-type table: one per code, "rel: " and the
      trimmed code text. */
  function LinkEntries(codes: seq<string>): (r: seq<EntryTriple>)
    ensures |r| == |codes|
    ensures forall k :: 0 <= k < |r| ==>
      r[k].0 == "rel: " + Trim(codes[k]) && r[k].1 == EntryId(r[k].0) && r[k].2 == "Attributes"
  {
    seq(|codes|, k requires 0 <= k < |codes| => ("rel: " + Trim(codes[k]), EntryId("rel: " + Trim(codes[k])), "Attributes"))
  }

  /** `additional_entries`: the fixed element list of the slug, else the rows
      of the attribute or link-type table, else nothing. */
  function AdditionalEntries(page: Page, slug: string): (r: seq<EntryTriple>)
    ensures slug == HEADING_SLUG ==> r == HeadingEntries()
    ensures slug == "Attributes" ==> r == AttrEntries(page.attrRows)
    ensures slug == "Link_types" ==> r == LinkEntries(page.linkCodes)
    ensures slug !in {HEADING_SLUG, "Attributes", "Link_types"} ==> r == []
  {
    match LookupAdditional(ADDITIONAL_ENTRIES, slug)
    case Some(tags) => seq(|tags|, k requires 0 <= k < |tags| => (tags[k], tags[k], "Elements"))
    case None =>
      if slug == "Attributes" then AttrEntries(page.attrRows)
      else if slug == "Link_types" then LinkEntries(page.linkCodes)
      else []
  }

  /** The six heading elements, each its own path, of type "Elements". */
  function HeadingEntries(): (r: seq<EntryTriple>)
    ensures |r| == 6
    ensures forall k :: 0 <= k < 6 ==> r[k] == (HEADINGS[k], HEADINGS[k], "Elements")
  {
    seq(|HEADINGS|, k requires 0 <= k < |HEADINGS| => (HEADINGS[k], HEADINGS[k], "Elements"))
  }

  /** `get_entries`: the page's own entry first (when included), then the
      additional ones. */
  function GetEntries(page: Page, currentPath: string): (r: seq<EntryTriple>)
    ensures IncludeDefaultEntry(currentPath, page.indicator) ==>
      |r| >= 1 && r[0] == (GetName(currentPath), currentPath, GetType(currentPath, page.obsolete).value) &&
      r[1..] == AdditionalEntries(page, currentPath)
    ensures !IncludeDefaultEntry(currentPath, page.indicator) ==> r == AdditionalEntries(page, currentPath)
  {
    var slug := currentPath;
    var default := if IncludeDefaultEntry(slug, page.indicator) then
      match GetType(slug, page.obsolete)
      case Some(t) => [(GetName(slug), slug, t)]
      case None => []
    else [];
    default + AdditionalEntries(page, slug)
  }

  /** The heading page lists exactly the six heading elements, whatever it
      holds. */
  lemma HeadingPageEntries(page: Page)
    ensures GetEntries(page, HEADING_SLUG) == HeadingEntries()
  {
  }

  /** An ordinary element page lists itself, then nothing else. */
  lemma ElementPageEntries(page: Page, name: string)
    requires !page.obsolete && page.indicator.None?
    requires "Element/" + name != HEADING_SLUG
    requires !Contains("Element/" + name, "CORS") && !Contains("Element/" + name, "Using")
    ensures GetEntries(page, "Element/" + name) ==
      [(GetName("Element/" + name), "Element/" + name, "Elements")]
  {
    var slug := "Element/" + name;
    assert StartsWith(slug, "Element/");
    assert !StartsWith(slug, "Global_attr") by { assert slug[0] != "Global_attr"[0]; }
    assert slug !in {HEADING_SLUG, "Attributes", "Link_types"} by {
      assert slug[0] != "Attributes"[0] && slug[0] != "Link_types"[0];
    }
  }

  /** `build_entry`: a fragment already holding '#' is the whole path, any
      other fragment is appended to the current path after '#'; the type
      defaults to "Element". */
  function BuildEntry(name: string, fragment: Option<string>, entryType: Option<string>, currentPath: string): (r: EntryTriple)
    ensures r.0 == name
    ensures fragment.None? ==> r.1 == currentPath
    ensures fragment.Some? && '#' in fragment.value ==> r.1 == fragment.value
    ensures fragment.Some? && '#' !in fragment.value ==> r.1 == currentPath + "#" + fragment.value
    ensures r.2 == entryType.GetOr("Element")
  {
    var path := match fragment
      case Some(f) => if '#' in f then f else currentPath + "#" + f
      case None => currentPath;
    (name, path, entryType.GetOr("Element"))
  }
}
