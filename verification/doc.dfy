/** The `Doc` trait's default methods of src/core/doc.rs that are pure: the
    storage paths and `outdated_state`. */
module Doc {
  import opened Wrappers
  import opened Strings
  import opened Numbers

  const INDEX_FILENAME: string := "index.json"
  const DB_FILENAME: string := "db.json"
  const META_FILENAME: string := "meta.json"

  const OUTDATED_MAJOR: string := "Outdated major version"
  const OUTDATED_MINOR: string := "Outdated minor version"
  const UP_TO_DATE: string := "Up-to-date"

  /** `path()`: the slug. */
  function DocPath(slug: string): string { slug }

  function IndexPath(slug: string): string { DocPath(slug) + "/" + INDEX_FILENAME }
  function DbPath(slug: string): string { DocPath(slug) + "/" + DB_FILENAME }
  function MetaPath(slug: string): string { DocPath(slug) + "/" + META_FILENAME }

  /** The text after the last '/', and the text before it. */
  function FileName(p: string): string {
    match RFind(p, "/")
    case Some(i) => p[i + 1..]
    case None => p
  }

  function Directory(p: string): string {
    match RFind(p, "/")
    case Some(i) => p[..i]
    case None => ""
  }

  lemma SplitAtLastSlash(dir: string, file: string)
    requires !Contains(file, "/")
    ensures FileName(dir + "/" + file) == file && Directory(dir + "/" + file) == dir
  {
    var p := dir + "/" + file;
    assert OccursAt(p, "/", |dir|);
    var r := RFind(p, "/");
    assert r.Some?;
    if r.value > |dir| {
      assert p[r.value..r.value + 1] == file[r.value - |dir| - 1..r.value - |dir|];
      ContainsOfOccurrence(file, "/", r.value - |dir| - 1);
    }
  }

  /** Each storage path is the document's directory joined with its own file
      name, so the three never coincide and each determines the slug. */
  lemma StoragePathsSplit(slug: string)
    ensures Directory(IndexPath(slug)) == slug && FileName(IndexPath(slug)) == INDEX_FILENAME
    ensures Directory(DbPath(slug)) == slug && FileName(DbPath(slug)) == DB_FILENAME
    ensures Directory(MetaPath(slug)) == slug && FileName(MetaPath(slug)) == META_FILENAME
  {
    NoSlash(INDEX_FILENAME);
    NoSlash(DB_FILENAME);
    NoSlash(META_FILENAME);
    SplitAtLastSlash(slug, INDEX_FILENAME);
    SplitAtLastSlash(slug, DB_FILENAME);
    SplitAtLastSlash(slug, META_FILENAME);
  }

  lemma NoSlash(s: string)
    requires forall i :: 0 <= i < |s| ==> s[i] != '/'
    ensures !Contains(s, "/")
  {
    ContainsIff(s, "/");
    forall i ensures !OccursAt(s, "/", i) {
      if 0 <= i && i + 1 <= |s| {
        assert s[i..i + 1] == [s[i]];
      }
    }
  }

  /** Each piece between '-' and '.' read as a `u32`, 0 where it does not parse. */
  function VersionParts(v: string): (r: seq<nat>)
    ensures |r| == |SplitBy(v, {'-', '.'})| && |r| >= 1
    ensures forall i :: 0 <= i < |r| ==> r[i] <= U32_MAX
    ensures forall i :: 0 <= i < |r| ==> var piece := SplitBy(v, {'-', '.'})[i];
      (ParseUnsigned(piece, U32_MAX).Some? ==> r[i] == ParseUnsigned(piece, U32_MAX).value)
      && (ParseUnsigned(piece, U32_MAX).None? ==> r[i] == 0)
  {
    var pieces := SplitBy(v, {'-', '.'});
    seq(|pieces|, i requires 0 <= i < |pieces| => ParseUnsigned(pieces[i], U32_MAX).GetOr(0))
  }

  /** A release "a.b.c" of `u32` numbers reads back as its three numbers; a piece
      that does not parse, such as a pre-release tag after '-', reads as 0. */
  lemma VersionPartsOfRelease(a: nat, b: nat, c: nat, tag: string)
    requires a <= U32_MAX && b <= U32_MAX && c <= U32_MAX
    requires |tag| > 0 && !IsDigit(tag[|tag| - 1])
    requires forall i :: 0 <= i < |tag| ==> tag[i] !in {'-', '.'}
    ensures VersionParts(NatToString(a) + "." + NatToString(b) + "." + NatToString(c)) == [a, b, c]
    ensures VersionParts(NatToString(a) + "." + NatToString(b) + "." + NatToString(c) + "-" + tag) == [a, b, c, 0]
  {
    var sa, sb, sc := NatToString(a), NatToString(b), NatToString(c);
    DigitsHoldNoSeparator(sa);
    DigitsHoldNoSeparator(sb);
    DigitsHoldNoSeparator(sc);
    ParseNatToString(a, U32_MAX);
    ParseNatToString(b, U32_MAX);
    ParseNatToString(c, U32_MAX);
    ParseFailsOnTrailingNonDigit(tag, U32_MAX);
    SplitRelease(sa, sb, sc);
    SplitTaggedRelease(sa, sb, sc, tag);
    var v := sa + "." + sb + "." + sc;
    var w := v + "-" + tag;
    assert VersionParts(v)[0] == a && VersionParts(v)[1] == b && VersionParts(v)[2] == c;
    assert VersionParts(w)[0] == a && VersionParts(w)[1] == b && VersionParts(w)[2] == c && VersionParts(w)[3] == 0;
  }

  lemma SplitRelease(sa: string, sb: string, sc: string)
    requires forall i :: 0 <= i < |sa| ==> sa[i] !in {'-', '.'}
    requires forall i :: 0 <= i < |sb| ==> sb[i] !in {'-', '.'}
    requires forall i :: 0 <= i < |sc| ==> sc[i] !in {'-', '.'}
    ensures SplitBy(sa + "." + sb + "." + sc, {'-', '.'}) == [sa, sb, sc]
  {
    var seps := {'-', '.'};
    SplitByNoSeparator(sc, seps);
    SplitByFirstSeparator(sb, '.', sc, seps);
    SplitByFirstSeparator(sa, '.', sb + "." + sc, seps);
    assert sa + "." + sb + "." + sc == sa + ['.'] + (sb + ['.'] + sc);
  }

  lemma SplitTaggedRelease(sa: string, sb: string, sc: string, tag: string)
    requires forall i :: 0 <= i < |sa| ==> sa[i] !in {'-', '.'}
    requires forall i :: 0 <= i < |sb| ==> sb[i] !in {'-', '.'}
    requires forall i :: 0 <= i < |sc| ==> sc[i] !in {'-', '.'}
    requires forall i :: 0 <= i < |tag| ==> tag[i] !in {'-', '.'}
    ensures SplitBy(sa + "." + sb + "." + sc + "-" + tag, {'-', '.'}) == [sa, sb, sc, tag]
  {
    var seps := {'-', '.'};
    var t1 := sc + ['-'] + tag;
    var t2 := sb + ['.'] + t1;
    TaggedReleaseJoin(sa, sb, sc, tag);
    SplitTail(sc, tag);
    SplitByFirstSeparator(sb, '.', t1, seps);
    SplitByFirstSeparator(sa, '.', t2, seps);
  }

  lemma TaggedReleaseJoin(sa: string, sb: string, sc: string, tag: string)
    ensures sa + "." + sb + "." + sc + "-" + tag == sa + ['.'] + (sb + ['.'] + (sc + ['-'] + tag))
  {
  }

  lemma SplitTail(sc: string, tag: string)
    requires forall i :: 0 <= i < |sc| ==> sc[i] !in {'-', '.'}
    requires forall i :: 0 <= i < |tag| ==> tag[i] !in {'-', '.'}
    ensures SplitBy(sc + ['-'] + tag, {'-', '.'}) == [sc, tag]
  {
    SplitByNoSeparator(tag, {'-', '.'});
    SplitByFirstSeparator(sc, '-', tag, {'-', '.'});
  }

  lemma DigitsHoldNoSeparator(s: string)
    requires AllDigits(s)
    ensures forall i :: 0 <= i < |s| ==> s[i] !in {'-', '.'}
  {
    forall i | 0 <= i < |s| ensures s[i] !in {'-', '.'} {
      assert IsDigit(s[i]);
    }
  }

  /** `outdated_state`: the first two parts are compared in a loop that returns
      at the first one decided. In terms of major and minor parts: a newer major
      is a major update; a newer minor under an equal major is a major update for
      majors 0 and 1 and a minor one otherwise; anything else is up to date. */
  function OutdatedState(scraperVersion: string, latestVersion: string): (r: string)
    ensures var s := VersionParts(scraperVersion);
            var l := VersionParts(latestVersion);
            var newerMinor := |s| >= 2 && |l| >= 2 && l[0] == s[0] && l[1] > s[1];
            && (r == OUTDATED_MAJOR <==> l[0] > s[0] || (newerMinor && s[0] <= 1))
            && (r == OUTDATED_MINOR <==> newerMinor && s[0] >= 2)
            && (r == UP_TO_DATE <==> l[0] <= s[0] && !newerMinor)
  {
    var s := VersionParts(scraperVersion);
    var l := VersionParts(latestVersion);
    if l[0] > s[0] then OUTDATED_MAJOR
    else if l[0] < s[0] then UP_TO_DATE
    else if |s| < 2 || |l| < 2 then UP_TO_DATE
    else if l[1] > s[1] then
      if (l[0] == 0 && s[0] == 0) || (l[0] == 1 && s[0] == 1) then OUTDATED_MAJOR
      else OUTDATED_MINOR
    else UP_TO_DATE
  }

  lemma OutdatedStateSameVersion(v: string)
    ensures OutdatedState(v, v) == UP_TO_DATE
  {
  }
}
