/** `Parser::clean_html` (src/core/parser.rs): removal of doctype declarations
    and decoding of the escaped dots. The regular expression `<!DOCTYPE[^>]*>` is
    written out: scanning left to right, a match runs from "<!DOCTYPE" to the
    first '>' after it, matches do not overlap, and the text between them is
    kept. HTML parsing itself is not modelled. */
module Parser {
  import opened Wrappers
  import opened Strings

  const DOCTYPE: string := "<!DOCTYPE"
  const DOT: string := "."
  /** The entities replaced by ".", in the order they are replaced. */
  const DOT_ENTITIES: seq<string> := ["&#46;", ".", "&#x2E;"]

  /** The index of the first '>' in `s`, if any. */
  function FirstClose(s: string): (r: Option<nat>)
    ensures r.Some? ==> r.value < |s| && s[r.value] == '>' && '>' !in s[..r.value]
    ensures r.None? ==> '>' !in s
    decreases |s|
  {
    if |s| == 0 then None
    else if s[0] == '>' then Some(0)
    else
      match FirstClose(s[1..])
      case None => None
      case Some(k) =>
        assert s[..k + 1] == [s[0]] + s[1..][..k];
        Some(k + 1)
  }

  /** `Regex::new("<!DOCTYPE[^>]*>").replace_all(s, "")`. */
  function StripDoctypes(s: string): (r: string)
    ensures |r| <= |s|
    decreases |s|
  {
    if |s| == 0 then s
    else if DOCTYPE <= s then
      match FirstClose(s[|DOCTYPE|..])
      case Some(k) => StripDoctypes(s[|DOCTYPE| + k + 1..])
      // No '>' follows, so no later doctype can match either.
      case None => s
    else [s[0]] + StripDoctypes(s[1..])
  }

  /** The entity replacements of `clean_html`, in order; the "." to "." one
      changes nothing. */
  function DecodeDots(s: string): (r: string)
    ensures |r| <= |s|
  {
    var a := ReplaceAll(s, DOT_ENTITIES[0], DOT);
    var b := ReplaceAll(a, DOT_ENTITIES[1], DOT);
    ReplaceAllNoLonger(s, DOT_ENTITIES[0], DOT);
    ReplaceAllSame(a, DOT);
    ReplaceAllNoLonger(b, DOT_ENTITIES[2], DOT);
    ReplaceAll(b, DOT_ENTITIES[2], DOT)
  }

  /** `clean_html`. */
  function CleanHtml(html: string): (r: string)
    ensures |r| <= |html|
  {
    DecodeDots(StripDoctypes(html))
  }

  /** A text without "<!DOCTYPE" has nothing to strip. */
  lemma {:induction false} StripDoctypesAbsent(s: string)
    requires !Contains(s, DOCTYPE)
    ensures StripDoctypes(s) == s
    decreases |s|
  {
    if |s| > 0 {
      assert !(DOCTYPE <= s);
      StripDoctypesAbsent(s[1..]);
      assert [s[0]] + s[1..] == s;
    }
  }

  /** A leading doctype is removed up to and including its first '>'. */
  lemma StripLeadingDoctype(decl: string, rest: string)
    requires '>' !in decl
    ensures StripDoctypes(DOCTYPE + decl + ">" + rest) == StripDoctypes(rest)
  {
    var s := DOCTYPE + decl + ">" + rest;
    assert DOCTYPE <= s;
    var tail := s[|DOCTYPE|..];
    assert tail == decl + ">" + rest;
    assert FirstClose(tail) == Some(|decl|) by {
      FirstCloseAt(decl, rest);
    }
    assert s[|DOCTYPE| + |decl| + 1..] == rest;
  }

  lemma {:induction false} FirstCloseAt(decl: string, rest: string)
    requires '>' !in decl
    ensures FirstClose(decl + ">" + rest) == Some(|decl|)
    decreases |decl|
  {
    if |decl| > 0 {
      FirstCloseAt(decl[1..], rest);
      assert (decl + ">" + rest)[1..] == decl[1..] + ">" + rest;
    }
  }

  /** Text without '&' has no entity to decode. */
  lemma DecodeDotsPlain(s: string)
    requires '&' !in s
    ensures DecodeDots(s) == s
  {
    AbsentChar(s, DOT_ENTITIES[0], 0);
    ReplaceAllAbsent(s, DOT_ENTITIES[0], DOT);
    ReplaceAllSame(s, DOT);
    AbsentChar(s, DOT_ENTITIES[2], 0);
    ReplaceAllAbsent(s, DOT_ENTITIES[2], DOT);
  }

  /** Text without '!' or '&' comes back unchanged. */
  lemma CleanHtmlPlain(s: string)
    requires '&' !in s && '!' !in s
    ensures CleanHtml(s) == s
  {
    AbsentChar(s, DOCTYPE, 1);
    StripDoctypesAbsent(s);
    DecodeDotsPlain(s);
  }

  /** "&#46;" between texts without '&' becomes ".". */
  lemma DecodeDecimalDot(a: string, b: string)
    requires '&' !in a && '&' !in b
    ensures DecodeDots(a + DOT_ENTITIES[0] + b) == a + "." + b
  {
    var e := DOT_ENTITIES[0];
    var s := a + e + b;
    assert s == a + (e + b);
    ReplaceAllAfter(a, e + b, e, DOT);
    assert (e + b)[|e|..] == b;
    AbsentChar(b, e, 0);
    ReplaceAllAbsent(b, e, DOT);
    var x := a + "." + b;
    assert ReplaceAll(s, e, DOT) == x;
    ReplaceAllSame(x, DOT);
    assert '&' !in x;
    AbsentChar(x, DOT_ENTITIES[2], 0);
    ReplaceAllAbsent(x, DOT_ENTITIES[2], DOT);
  }

  /** "&#x2E;" between texts without '&' becomes ".". */
  lemma DecodeHexDot(a: string, b: string)
    requires '&' !in a && '&' !in b
    ensures DecodeDots(a + DOT_ENTITIES[2] + b) == a + "." + b
  {
    var e := DOT_ENTITIES[2];
    var s := a + e + b;
    assert s == a + (e + b);
    assert ReplaceAll(s, DOT_ENTITIES[0], DOT) == s by {
      ReplaceAllAfter(a, e + b, DOT_ENTITIES[0], DOT);
      assert !(DOT_ENTITIES[0] <= e + b) by {
        assert (e + b)[2] != DOT_ENTITIES[0][2];
      }
      assert (e + b)[1..] == e[1..] + b;
      AbsentChar(e[1..] + b, DOT_ENTITIES[0], 0);
      ReplaceAllAbsent(e[1..] + b, DOT_ENTITIES[0], DOT);
      assert [(e + b)[0]] + (e + b)[1..] == e + b;
    }
    ReplaceAllSame(s, DOT);
    ReplaceAllAfter(a, e + b, e, DOT);
    assert (e + b)[|e|..] == b;
    AbsentChar(b, e, 0);
    ReplaceAllAbsent(b, e, DOT);
  }

  /** A leading doctype declaration followed by text without '!' or '&' leaves
      just that text. */
  lemma CleanHtmlLeadingDoctype(decl: string, rest: string)
    requires '>' !in decl && '!' !in rest && '&' !in rest
    ensures CleanHtml(DOCTYPE + decl + ">" + rest) == rest
  {
    StripLeadingDoctype(decl, rest);
    AbsentChar(rest, DOCTYPE, 1);
    StripDoctypesAbsent(rest);
    DecodeDotsPlain(rest);
  }

  /** The module's own test, for any page body without '!' or '&' in place of
      "<html><body>Test</body></html>": the HTML5 doctype is dropped. */
  lemma CleanHtmlScenario(page: string)
    requires '!' !in page && '&' !in page
    ensures CleanHtml("<!DOCTYPE html>" + page) == page
  {
    var decl := " html";
    assert '>' !in decl;
    assert "<!DOCTYPE html>" + page == DOCTYPE + decl + ">" + page;
    CleanHtmlLeadingDoctype(decl, page);
  }
}
