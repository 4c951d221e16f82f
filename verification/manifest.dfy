/** `Manifest` (src/core/manifest.rs): the documentations on offer, by slug, and
    their grouping by type. JSON (de)serialisation is not modelled. */
module Manifest {
  import opened Wrappers
  import opened Strings
  import opened Collections
  import opened EntrySort
  import opened Sorting

  datatype DocSpec = DocSpec(
    name: string,
    slug: string,
    docType: string,
    version: Option<string>,
    release: Option<string>,
    links: Option<map<string, string>>,
    mtime: nat,
    dbSize: nat)

  datatype Manifest = Manifest(docs: map<string, DocSpec>)

  function New(): (m: Manifest)
    ensures IsEmpty(m)
  {
    Manifest(map[])
  }

  /** `add`: stores the doc under its slug, replacing any doc with that slug. */
  function Add(m: Manifest, doc: DocSpec): (r: Manifest)
    ensures Get(r, doc.slug) == Some(doc)
    ensures forall s :: s != doc.slug ==> Get(r, s) == Get(m, s)
  {
    Manifest(m.docs[doc.slug := doc])
  }

  function Get(m: Manifest, slug: string): (r: Option<DocSpec>)
    ensures r.Some? <==> slug in m.docs
  {
    if slug in m.docs then Some(m.docs[slug]) else None
  }

  /** `remove`: the doc that was under `slug`, and the manifest without it. */
  function Remove(m: Manifest, slug: string): (r: (Option<DocSpec>, Manifest))
    ensures r.0 == Get(m, slug)
    ensures Get(r.1, slug).None?
    ensures forall s :: s != slug ==> Get(r.1, s) == Get(m, s)
  {
    (Get(m, slug), Manifest(m.docs - {slug}))
  }

  function Len(m: Manifest): nat {
    |m.docs|
  }

  predicate IsEmpty(m: Manifest) {
    |m.docs| == 0
  }

  function Clear(m: Manifest): (r: Manifest)
    ensures IsEmpty(r) && forall s :: Get(r, s).None?
  {
    Manifest(map[])
  }

  /** `is_empty` holds exactly when no slug is stored. */
  lemma IsEmptyIff(m: Manifest)
    ensures IsEmpty(m) <==> Len(m) == 0
    ensures IsEmpty(m) <==> forall s :: Get(m, s).None?
  {
    if !IsEmpty(m) {
      var s :| s in m.docs;
      assert Get(m, s).Some?;
    }
  }

  /** `docs`: the docs in the map's iteration order `order`. */
  function Docs(m: Manifest, order: seq<string>): (r: seq<DocSpec>)
    requires Enumerates(order, m.docs)
    ensures |r| == |order|
    ensures forall i :: 0 <= i < |order| ==> r[i] == m.docs[order[i]]
  {
    seq(|order|, i requires 0 <= i < |order| => m.docs[order[i]])
  }

  /** The docs of type `t`, in the given order. */
  function OfType(docs: seq<DocSpec>, t: string): (r: seq<DocSpec>)
    ensures forall d :: d in r <==> d in docs && d.docType == t
    ensures |r| <= |docs|
    decreases |docs|
  {
    if |docs| == 0 then []
    else
      var init := docs[..|docs| - 1];
      var last := docs[|docs| - 1];
      assert docs == init + [last];
      if last.docType == t then OfType(init, t) + [last] else OfType(init, t)
  }

  /** The first loop of `docs_by_type`: each doc appended to the list of its type,
      a list being opened at the first doc of that type. */
  function Group(docs: seq<DocSpec>): (r: map<string, seq<DocSpec>>)
    ensures forall t :: t in r <==> exists d :: d in docs && d.docType == t
    ensures forall t :: t in r ==> r[t] == OfType(docs, t)
    decreases |docs|
  {
    if |docs| == 0 then map[]
    else
      var init := docs[..|docs| - 1];
      var last := docs[|docs| - 1];
      assert docs == init + [last];
      var g := Group(init);
      var t := last.docType;
      assert t !in g ==> OfType(init, t) == [] by {
        if t !in g && |OfType(init, t)| > 0 {
          assert OfType(init, t)[0] in OfType(init, t);
        }
      }
      g[t := (if t in g then g[t] else []) + [last]]
  }

  /** Two docs compared by lowercased name. */
  function ByLowerName(a: DocSpec, b: DocSpec): Ordering {
    CompareStrings(Lower(a.name), Lower(b.name))
  }

  /** `docs_by_type`: the docs grouped by type, each group sorted by lowercased
      name with a stable sort. `order` is the iteration order of the doc map. */
  function DocsByType(m: Manifest, order: seq<string>): (r: map<string, seq<DocSpec>>)
    requires Enumerates(order, m.docs)
    ensures forall t :: t in r <==> exists s :: s in m.docs && m.docs[s].docType == t
  {
    var g := Group(Docs(m, order));
    GroupTypes(m, order);
    map t | t in g :: SortBy(g[t], ByLowerName)
  }

  /** The first loop opens one list per type that some doc of the manifest has. */
  lemma GroupTypes(m: Manifest, order: seq<string>)
    requires Enumerates(order, m.docs)
    ensures forall t :: t in Group(Docs(m, order)) <==> exists s :: s in m.docs && m.docs[s].docType == t
  {
    var docs := Docs(m, order);
    var g := Group(docs);
    forall t ensures t in g <==> exists s :: s in m.docs && m.docs[s].docType == t {
      if t in g {
        var d :| d in docs && d.docType == t;
        var i :| 0 <= i < |docs| && docs[i] == d;
        assert m.docs[order[i]] == d;
      }
      if exists s :: s in m.docs && m.docs[s].docType == t {
        var s :| s in m.docs && m.docs[s].docType == t;
        var i :| 0 <= i < |order| && order[i] == s;
        assert docs[i] == m.docs[s];
      }
    }
  }

  /** Every doc is in the group of its type. */
  lemma DocsByTypeCovers(m: Manifest, order: seq<string>, s: string)
    requires Enumerates(order, m.docs)
    requires s in m.docs
    ensures var r := DocsByType(m, order); m.docs[s].docType in r && m.docs[s] in r[m.docs[s].docType]
  {
    var docs := Docs(m, order);
    var i :| 0 <= i < |order| && order[i] == s;
    assert docs[i] == m.docs[s];
    SortBySameElements(Group(docs)[m.docs[s].docType], ByLowerName);
  }

  /** A group holds only docs of the manifest, of its own type, so no doc is in
      any other group. */
  lemma DocsByTypeMembers(m: Manifest, order: seq<string>)
    requires Enumerates(order, m.docs)
    ensures var r := DocsByType(m, order);
      forall t: string, d: DocSpec :: t in r && d in r[t] ==> d.docType == t && exists s :: s in m.docs && m.docs[s] == d
  {
    var docs := Docs(m, order);
    var g := Group(docs);
    var r := DocsByType(m, order);
    forall t: string, d: DocSpec | t in r && d in r[t] ensures d.docType == t && exists s :: s in m.docs && m.docs[s] == d {
      assert r[t] == SortBy(g[t], ByLowerName);
      SortBySameElements(g[t], ByLowerName);
      assert d in OfType(docs, t);
      var i :| 0 <= i < |docs| && docs[i] == d;
      assert m.docs[order[i]] == d;
    }
  }

  /** A group holds each doc as often as the docs of its type do. */
  lemma DocsByTypeCounts(m: Manifest, order: seq<string>)
    requires Enumerates(order, m.docs)
    ensures var r := DocsByType(m, order);
      forall t :: t in r ==> multiset(r[t]) == multiset(OfType(Docs(m, order), t))
  {
    var g := Group(Docs(m, order));
    var r := DocsByType(m, order);
    forall t | t in r ensures multiset(r[t]) == multiset(OfType(Docs(m, order), t)) {
      assert r[t] == SortBy(g[t], ByLowerName);
    }
  }

  /** Each group is sorted by lowercased name. */
  lemma DocsByTypeSorted(m: Manifest, order: seq<string>)
    requires Enumerates(order, m.docs)
    ensures var r := DocsByType(m, order); forall t :: t in r ==> Sorted(r[t], ByLowerName)
  {
    var g := Group(Docs(m, order));
    var r := DocsByType(m, order);
    forall t | t in r ensures Sorted(r[t], ByLowerName) {
      ByLowerNameAntisymmetric(g[t]);
      SortBySorted(g[t], ByLowerName);
    }
  }

  lemma ByLowerNameAntisymmetric(s: seq<DocSpec>)
    ensures AntisymmetricOn(s, ByLowerName)
  {
    forall a: DocSpec, b: DocSpec {
      CompareStringsAntisymmetric(Lower(a.name), Lower(b.name));
    }
  }

  /** The module's own test: one doc "Rust" of type "programming" under "rust". */
  lemma ManifestScenario(doc: DocSpec)
    requires doc.name == "Rust" && doc.slug == "rust" && doc.docType == "programming"
    requires doc.version == Some("1.0.0")
    ensures var m := Add(New(), doc);
      && Get(m, "rust").Some? && Get(m, "rust").value.name == "Rust"
      && Get(m, "rust").value.version == Some("1.0.0")
      && Len(m) == 1
      && var g := DocsByType(m, ["rust"]); |g| == 1 && "programming" in g && |g["programming"]| == 1
  {
    var m := Add(New(), doc);
    assert m.docs == map["rust" := doc];
    var docs := Docs(m, ["rust"]);
    assert docs == [doc];
    assert Group(docs) == map["programming" := [doc]] by {
      assert docs[..0] == [];
      assert Group(docs[..0]) == map[];
      assert [] + [doc] == [doc];
    }
    var g := DocsByType(m, ["rust"]);
    assert g == map["programming" := SortBy([doc], ByLowerName)];
    assert |SortBy([doc], ByLowerName)| == 1;
  }
}
