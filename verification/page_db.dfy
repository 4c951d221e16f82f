/** `PageDb` (src/core/page_db.rs): the stored pages of a documentation, by
    path. JSON (de)serialisation is not modelled. */
module PageDb {
  import opened Wrappers
  import opened Collections

  datatype Db = Db(pages: map<string, string>)

  function New(): (db: Db)
    ensures Len(db) == 0
  {
    Db(map[])
  }

  /** `add`: stores `content` under `path`, overwriting what was there. */
  function Add(db: Db, path: string, content: string): (r: Db)
    ensures Get(r, path) == Some(content) && Has(r, path)
    ensures forall p :: p != path ==> Get(r, p) == Get(db, p)
    ensures Len(r) == if Has(db, path) then Len(db) else Len(db) + 1
  {
    Db(db.pages[path := content])
  }

  function Get(db: Db, path: string): (r: Option<string>)
    ensures r.Some? <==> Has(db, path)
  {
    if path in db.pages then Some(db.pages[path]) else None
  }

  predicate Has(db: Db, path: string) {
    path in db.pages
  }

  /** `len`: the number of distinct paths. */
  function Len(db: Db): (n: nat)
    ensures n == |db.pages.Keys|
  {
    |db.pages|
  }

  predicate IsEmpty(db: Db) {
    |db.pages| == 0
  }

  /** `is_empty` holds exactly when no path is stored. */
  lemma IsEmptyIff(db: Db)
    ensures IsEmpty(db) <==> Len(db) == 0
    ensures IsEmpty(db) <==> forall p :: !Has(db, p)
  {
    if !IsEmpty(db) {
      var p :| p in db.pages;
      assert Has(db, p);
    }
  }

  /** `clear`: nothing is stored afterwards. */
  function Clear(db: Db): (r: Db)
    ensures IsEmpty(r) && forall p :: !Has(r, p)
  {
    Db(map[])
  }

  /** `remove`: the content that was under `path`, and the db without it. */
  function Remove(db: Db, path: string): (r: (Option<string>, Db))
    ensures r.0 == Get(db, path)
    ensures !Has(r.1, path)
    ensures forall p :: p != path ==> Get(r.1, p) == Get(db, p)
  {
    (Get(db, path), Db(db.pages - {path}))
  }

  /** `paths` and `contents`, in the map's iteration order `order`. */
  function Paths(db: Db, order: seq<string>): (r: seq<string>)
    requires Enumerates(order, db.pages)
    ensures |r| == Len(db)
    ensures forall p :: p in r <==> Has(db, p)
  {
    EnumerationLength(order, db.pages);
    order
  }

  function Contents(db: Db, order: seq<string>): (r: seq<string>)
    requires Enumerates(order, db.pages)
    ensures |r| == |order|
    ensures forall i :: 0 <= i < |order| ==> r[i] == db.pages[order[i]]
  {
    seq(|order|, i requires 0 <= i < |order| => db.pages[order[i]])
  }

  /** Removing what was just added gives back the content and the db as it was
      when the path was new. */
  lemma AddRemove(db: Db, path: string, content: string)
    requires !Has(db, path)
    ensures Remove(Add(db, path, content), path) == (Some(content), db)
  {
    assert db.pages[path := content] - {path} == db.pages;
  }

  /** The module's own test: add, get, has, len, paths, contents, remove. */
  lemma DbScenario(order: seq<string>)
    requires Enumerates(order, Add(New(), "path/to/page", "content").pages)
    ensures var db := Add(New(), "path/to/page", "content");
      && Get(db, "path/to/page") == Some("content")
      && Has(db, "path/to/page") && !Has(db, "nonexistent")
      && Len(db) == 1 && !IsEmpty(db)
      && Paths(db, order) == ["path/to/page"]
      && Contents(db, order) == ["content"]
      && !Has(Remove(db, "path/to/page").1, "path/to/page")
      && IsEmpty(Remove(db, "path/to/page").1)
  {
    var db := Add(New(), "path/to/page", "content");
    assert "path/to/page"[0] != "nonexistent"[0];
    EnumerationLength(order, db.pages);
    assert order[0] in db.pages;
    assert db.pages.Keys == {"path/to/page"};
    assert Remove(db, "path/to/page").1.pages == map[];
  }
}
