/** `DocRegistry` (src/docs/registry.rs): the documentations found on disk, in
    the order they were added, and the directory naming they are loaded by. The
    file system is an input: a listing of directory entries with the facts the
    loader reads from each. */
module DocRegistry {
  import opened Wrappers
  import opened Strings
  import D = Documentation

  datatype Registry = Registry(docs: seq<D.Documentation>)

  function New(): (r: Registry)
    ensures All(r) == []
  {
    Registry([])
  }

  /** `add`: appends. */
  function Add(reg: Registry, doc: D.Documentation): (r: Registry)
    ensures All(r) == All(reg) + [doc]
  {
    Registry(reg.docs + [doc])
  }

  /** `all`: the docs in insertion order. */
  function All(reg: Registry): seq<D.Documentation> {
    reg.docs
  }

  /** The first position from `from` on whose doc satisfies `p`. */
  function FirstWhere(docs: seq<D.Documentation>, p: D.Documentation -> bool, from: nat): (r: Option<nat>)
    requires from <= |docs|
    ensures r.None? <==> forall i :: from <= i < |docs| ==> !p(docs[i])
    ensures r.Some? ==> from <= r.value < |docs| && p(docs[r.value])
    ensures r.Some? ==> forall i :: from <= i < r.value ==> !p(docs[i])
    decreases |docs| - from
  {
    if from == |docs| then None
    else if p(docs[from]) then Some(from)
    else FirstWhere(docs, p, from + 1)
  }

  /** `find`: the first doc with the slug. */
  function Find(reg: Registry, slug: string): (r: Option<D.Documentation>)
    ensures r.None? <==> forall i :: 0 <= i < |reg.docs| ==> reg.docs[i].slug != slug
    ensures r.Some? ==> exists i :: 0 <= i < |reg.docs| && reg.docs[i] == r.value && r.value.slug == slug &&
                                    forall j :: 0 <= j < i ==> reg.docs[j].slug != slug
  {
    match FirstWhere(reg.docs, (d: D.Documentation) => d.slug == slug, 0)
    case None => None
    case Some(i) => Some(reg.docs[i])
  }

  /** `find_with_version`: the first doc with the slug and the version. */
  function FindWithVersion(reg: Registry, slug: string, version: string): (r: Option<D.Documentation>)
    ensures r.None? <==> forall i :: 0 <= i < |reg.docs| ==> !(reg.docs[i].slug == slug && reg.docs[i].version == version)
    ensures r.Some? ==> exists i :: 0 <= i < |reg.docs| && reg.docs[i] == r.value &&
                                    r.value.slug == slug && r.value.version == version &&
                                    forall j :: 0 <= j < i ==> !(reg.docs[j].slug == slug && reg.docs[j].version == version)
  {
    match FirstWhere(reg.docs, (d: D.Documentation) => d.slug == slug && d.version == version, 0)
    case None => None
    case Some(i) => Some(reg.docs[i])
  }

  /** The (slug, version) a directory name stands for: with a '~', the text
      before the first '~' and the text between the first and the second; without
      one, the whole name and no version. */
  function SplitDirName(dirname: string): (r: (string, string))
    ensures D.VERSION_SEPARATOR !in dirname ==> r == (dirname, "")
    ensures D.VERSION_SEPARATOR !in r.0 && D.VERSION_SEPARATOR !in r.1
  {
    if D.VERSION_SEPARATOR in dirname then
      var parts := SplitBy(dirname, {D.VERSION_SEPARATOR});
      var i :| 0 <= i < |dirname| && dirname[i] == D.VERSION_SEPARATOR;
      SplitByHasTwo(dirname, {D.VERSION_SEPARATOR}, i);
      assert forall k :: 0 <= k < |parts[0]| ==> parts[0][k] != D.VERSION_SEPARATOR;
      assert forall k :: 0 <= k < |parts[1]| ==> parts[1][k] != D.VERSION_SEPARATOR;
      (parts[0], parts[1])
    else (dirname, "")
  }

  /** The directory name of a doc whose slug and version hold no '~' splits back
      into its slug and version. */
  lemma SplitDirNameOfPath(d: D.Documentation)
    requires D.VERSION_SEPARATOR !in d.slug && D.VERSION_SEPARATOR !in d.version
    ensures SplitDirName(D.Path(d)) == (d.slug, d.version)
  {
    var seps := {D.VERSION_SEPARATOR};
    if d.version != "" {
      SplitByFirstSeparator(d.slug, D.VERSION_SEPARATOR, d.version, seps);
      SplitByNoSeparator(d.version, seps);
    }
  }

  /** A second '~' and what follows it are dropped. */
  lemma SplitDirNameDropsRest(slug: string, version: string, rest: string)
    requires D.VERSION_SEPARATOR !in slug && D.VERSION_SEPARATOR !in version
    ensures SplitDirName(slug + "~" + version + "~" + rest) == (slug, version)
  {
    var seps := {D.VERSION_SEPARATOR};
    var name := slug + "~" + version + "~" + rest;
    assert name == slug + [D.VERSION_SEPARATOR] + (version + "~" + rest);
    assert name[|slug|] == D.VERSION_SEPARATOR;
    SplitByFirstSeparator(slug, D.VERSION_SEPARATOR, version + "~" + rest, seps);
    SplitByFirstSeparator(version, D.VERSION_SEPARATOR, rest, seps);
  }

  /** What the loader reads from one directory entry: whether it is a directory,
      its name if it is valid UTF-8, whether index.json and db.json exist, the
      sizes and modification time (zero when unreadable), and the "release" and
      "name" strings of meta.json when that file exists and parses. */
  datatype DirEntry = DirEntry(
    isDir: bool,
    name: Option<string>,
    hasIndex: bool,
    hasDb: bool,
    indexSize: nat,
    dbSize: nat,
    mtime: nat,
    metaRelease: Option<string>,
    metaName: Option<string>)

  /** An entry the loader turns into a doc. */
  predicate Loadable(e: DirEntry) {
    e.isDir && e.name.Some? && e.hasIndex && e.hasDb
  }

  /** The doc loaded from an entry: named after its slug unless meta.json names
      it. */
  function LoadDoc(e: DirEntry): (d: D.Documentation)
    requires Loadable(e)
    ensures (d.slug, d.version) == SplitDirName(e.name.value)
    ensures d.name == if e.metaName.Some? then e.metaName.value else d.slug
    ensures d.release == if e.metaRelease.Some? then e.metaRelease.value else ""
    ensures d.mtime == e.mtime && d.dbSize == e.dbSize && d.indexSize == e.indexSize
  {
    var (slug, version) := SplitDirName(e.name.value);
    var doc := D.WithIndexSize(D.WithDbSize(D.WithMtime(D.New(slug, slug, version), e.mtime), e.dbSize), e.indexSize);
    var doc := if e.metaRelease.Some? then D.WithRelease(doc, e.metaRelease.value) else doc;
    if e.metaName.Some? then doc.(name := e.metaName.value) else doc
  }

  /** The loop over the listing: unreadable entries, non-directories, names that
      are not UTF-8, and directories lacking index.json or db.json are skipped. */
  function LoadEntries(reg: Registry, entries: seq<Result<DirEntry>>): (r: Registry)
    ensures |All(r)| <= |All(reg)| + |entries|
    ensures All(reg) <= All(r)
    decreases |entries|
  {
    if |entries| == 0 then reg
    else
      var reg1 := if entries[0].Ok? && Loadable(entries[0].value) then Add(reg, LoadDoc(entries[0].value)) else reg;
      LoadEntries(reg1, entries[1..])
  }

  /** The loadable entries, in listing order. */
  function Loadables(entries: seq<Result<DirEntry>>): (r: seq<DirEntry>)
    ensures forall e :: e in r ==> Loadable(e)
    decreases |entries|
  {
    if |entries| == 0 then []
    else if entries[0].Ok? && Loadable(entries[0].value) then [entries[0].value] + Loadables(entries[1..])
    else Loadables(entries[1..])
  }

  /** The docs of loadable entries, in order. */
  function LoadDocs(ls: seq<DirEntry>): (r: seq<D.Documentation>)
    requires forall e :: e in ls ==> Loadable(e)
    ensures |r| == |ls|
    decreases |ls|
  {
    if |ls| == 0 then [] else [LoadDoc(ls[0])] + LoadDocs(ls[1..])
  }

  /** Doc `i` is loaded from loadable entry `i`. */
  lemma {:induction false} LoadDocsAt(ls: seq<DirEntry>, i: nat)
    requires forall e :: e in ls ==> Loadable(e)
    requires i < |ls|
    ensures LoadDocs(ls)[i] == LoadDoc(ls[i])
    decreases i
  {
    if i > 0 {
      LoadDocsAt(ls[1..], i - 1);
    }
  }

  /** The docs loaded are those of the loadable entries, in order. */
  lemma {:induction false} LoadEntriesDocs(reg: Registry, entries: seq<Result<DirEntry>>)
    ensures All(LoadEntries(reg, entries)) == All(reg) + LoadDocs(Loadables(entries))
    decreases |entries|
  {
    if |entries| > 0 {
      if entries[0].Ok? && Loadable(entries[0].value) {
        var reg1 := Add(reg, LoadDoc(entries[0].value));
        LoadEntriesDocs(reg1, entries[1..]);
        LoadedStep(reg, entries, reg1);
      } else {
        LoadEntriesDocs(reg, entries[1..]);
        SkippedStep(reg, entries);
      }
    }
  }

  lemma LoadedStep(reg: Registry, entries: seq<Result<DirEntry>>, reg1: Registry)
    requires |entries| > 0 && entries[0].Ok? && Loadable(entries[0].value)
    requires reg1 == Add(reg, LoadDoc(entries[0].value))
    requires All(LoadEntries(reg1, entries[1..])) == All(reg1) + LoadDocs(Loadables(entries[1..]))
    ensures All(LoadEntries(reg, entries)) == All(reg) + LoadDocs(Loadables(entries))
  {
    var ls := Loadables(entries);
    var rest := Loadables(entries[1..]);
    var doc := LoadDoc(entries[0].value);
    assert ls == [entries[0].value] + rest;
    LoadDocsCons(ls, rest);
    calc {
      All(LoadEntries(reg, entries));
      All(LoadEntries(reg1, entries[1..]));
      All(reg1) + LoadDocs(rest);
      (All(reg) + [doc]) + LoadDocs(rest);
      { SeqAssoc(All(reg), [doc], LoadDocs(rest)); }
      All(reg) + ([doc] + LoadDocs(rest));
      All(reg) + LoadDocs(ls);
    }
  }

  lemma SeqAssoc<T>(a: seq<T>, b: seq<T>, c: seq<T>)
    ensures (a + b) + c == a + (b + c)
  {
  }

  lemma LoadDocsCons(ls: seq<DirEntry>, rest: seq<DirEntry>)
    requires |ls| > 0 && (forall e :: e in ls ==> Loadable(e)) && ls[1..] == rest
    ensures LoadDocs(ls) == [LoadDoc(ls[0])] + LoadDocs(rest)
  {
  }

  lemma SkippedStep(reg: Registry, entries: seq<Result<DirEntry>>)
    requires |entries| > 0 && !(entries[0].Ok? && Loadable(entries[0].value))
    requires All(LoadEntries(reg, entries[1..])) == All(reg) + LoadDocs(Loadables(entries[1..]))
    ensures All(LoadEntries(reg, entries)) == All(reg) + LoadDocs(Loadables(entries))
  {
  }

  /** The two error messages: the base directory is missing, or cannot be listed. */
  function PathMissing(path: string): string { "文档路径不存在: " + path }
  function ReadDirFailed(e: string): string { "无法读取文档目录: " + e }

  /** `load_from_disk`. A missing base directory is an error that leaves the
      registry alone; otherwise the list is cleared first, so a directory that
      cannot be read leaves it empty, and the loadable entries are added in
      listing order. */
  function LoadFromDisk(reg: Registry, path: string, baseExists: bool, listing: Result<seq<Result<DirEntry>>>): (r: (Result<()>, Registry))
    ensures !baseExists ==> r.0 == Err(PathMissing(path)) && r.1 == reg
    ensures baseExists && listing.Err? ==> r.0 == Err(ReadDirFailed(listing.error)) && All(r.1) == []
    ensures baseExists && listing.Ok? ==> r.0.Ok? && |All(r.1)| == |Loadables(listing.value)|
  {
    if !baseExists then (Err(PathMissing(path)), reg)
    else
      var cleared := New();
      match listing
      case Err(e) => (Err(ReadDirFailed(e)), cleared)
      case Ok(entries) =>
        LoadEntriesDocs(cleared, entries);
        (Ok(()), LoadEntries(cleared, entries))
  }

  /** After a successful load every doc comes from a directory holding index.json
      and db.json, under its (slug, version) directory name. */
  lemma LoadFromDiskDocs(reg: Registry, path: string, entries: seq<Result<DirEntry>>)
    ensures var docs := All(LoadFromDisk(reg, path, true, Ok(entries)).1);
      forall i :: 0 <= i < |docs| ==> exists e :: e in Loadables(entries) && docs[i] == LoadDoc(e)
  {
    LoadEntriesDocs(New(), entries);
    var ls := Loadables(entries);
    var docs := All(LoadFromDisk(reg, path, true, Ok(entries)).1);
    forall i | 0 <= i < |docs| ensures exists e :: e in ls && docs[i] == LoadDoc(e) {
      LoadDocsAt(ls, i);
      assert ls[i] in ls;
    }
  }
}
