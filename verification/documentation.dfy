/** `Documentation` (src/docs/documentation.rs): one documentation set, as the
    registry lists it. */
module Documentation {
  datatype Documentation = Documentation(
    name: string,
    slug: string,
    version: string,
    release: string,
    mtime: nat,
    dbSize: nat,
    indexSize: nat)

  /** The separator between slug and version in directory names. */
  const VERSION_SEPARATOR: char := '~'

  /** `new`: the given name, slug and version; no release, zero time and sizes. */
  function New(name: string, slug: string, version: string): (d: Documentation)
    ensures d.name == name && d.slug == slug && d.version == version
    ensures d.release == "" && d.mtime == 0 && d.dbSize == 0 && d.indexSize == 0
  {
    Documentation(name, slug, version, "", 0, 0, 0)
  }

  /** `path`: the directory name, the slug alone when there is no version. */
  function Path(d: Documentation): (r: string)
    ensures d.version == "" ==> r == d.slug
    ensures d.version != "" ==> r == d.slug + [VERSION_SEPARATOR] + d.version
  {
    if d.version == "" then d.slug else d.slug + [VERSION_SEPARATOR] + d.version
  }

  /** `full_name`: the name, followed by a space and the version when there is
      one. */
  function FullName(d: Documentation): (r: string)
    ensures d.version == "" ==> r == d.name
    ensures d.version != "" ==> r == d.name + " " + d.version
  {
    if d.version == "" then d.name else d.name + " " + d.version
  }

  /** The builders each set one field. */
  function WithRelease(d: Documentation, release: string): (r: Documentation)
    ensures r.release == release
    ensures r == d.(release := r.release)
  {
    d.(release := release)
  }

  function WithMtime(d: Documentation, mtime: nat): (r: Documentation)
    ensures r.mtime == mtime
    ensures r == d.(mtime := r.mtime)
  {
    d.(mtime := mtime)
  }

  function WithDbSize(d: Documentation, size: nat): (r: Documentation)
    ensures r.dbSize == size
    ensures r == d.(dbSize := r.dbSize)
  {
    d.(dbSize := size)
  }

  function WithIndexSize(d: Documentation, size: nat): (r: Documentation)
    ensures r.indexSize == size
    ensures r == d.(indexSize := r.indexSize)
  {
    d.(indexSize := size)
  }

  /** A builder changes neither the path nor the full name. */
  lemma BuildersKeepNaming(d: Documentation, release: string, mtime: nat, db: nat, index: nat)
    ensures var b := WithIndexSize(WithDbSize(WithMtime(WithRelease(d, release), mtime), db), index);
      Path(b) == Path(d) && FullName(b) == FullName(d)
  {
  }
}
