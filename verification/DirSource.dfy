/** Loading directories: from the table, on the server through the cache. */
module DirSources {
  import opened Base
  import opened Merkle
  import opened Streaming
  import opened DirCaches

  /** The row must exist, hash to its key unless that is not checked, and decode. */
  function LookupDir(c: Config, directories: map<Digest, Bytes>, checked: bool, d: Digest)
    : Result<CaDirectory, ReadError>
  {
    if d !in directories || (checked && c.hash(directories[d]) != d) then Err(NoDirectory(d))
    else
      match c.decode(directories[d])
      case Some(dir) => Ok(dir)
      case None => Err(NoDirectory(d))
  }

  /** A directory is loaded from its own row. The row of another directory is refused where rows are checked and
      taken for it where they are not; without a row there is nothing to load. */
  lemma OnlyCheckedRowsAreSafe(c: Config, directories: map<Digest, Bytes>, checked: bool, dir: CaDirectory,
                               other: CaDirectory)
    requires Sound(c) && dir != other
    ensures var d := c.hash(c.encode(dir));
            && LookupDir(c, directories[d := c.encode(dir)], checked, d) == Ok(dir)
            && LookupDir(c, directories[d := c.encode(other)], checked, d)
               == (if checked then Err(NoDirectory(d)) else Ok(other))
            && LookupDir(c, directories - {d}, checked, d) == Err(NoDirectory(d))
  {
    assert c.preimage(c.hash(c.encode(dir))) == c.encode(dir);
    assert c.preimage(c.hash(c.encode(other))) == c.encode(other);
    assert c.decode(c.encode(dir)) == Some(dir) && c.decode(c.encode(other)) == Some(other);
  }

  /** All directories that can be loaded. */
  function Loadable(c: Config, directories: map<Digest, Bytes>, checked: bool): map<Digest, CaDirectory> {
    map d | d in directories && LookupDir(c, directories, checked, d).Ok? ::
      LookupDir(c, directories, checked, d).value
  }

  /** A place to load directories from.  `lookup` is the read of the table, with whatever is checked
      there; the server also has a cache in front of it, the client has none. */
  class DirSource {
    const lookup: Digest -> Result<CaDirectory, ReadError>
    const cache: DirCache?

    constructor (lookup: Digest -> Result<CaDirectory, ReadError>, cache: DirCache?)
      ensures this.lookup == lookup && this.cache == cache
    {
      this.lookup, this.cache := lookup, cache;
    }

    function Footprint(): set<object> { if cache == null then {} else {cache} }

    /** A cached directory is what the table would give. */
    ghost predicate Valid()
      reads Footprint()
    {
      cache != null ==> cache.Logged() && forall d :: d in cache.table ==> lookup(d) == Ok(cache.table[d])
    }

    /** It answers exactly as `reader` does. */
    ghost predicate Backs(reader: Reader) {
      forall d :: lookup(d) == if d in reader.dirs then Ok(reader.dirs[d]) else Err(NoDirectory(d))
    }

    /** The cache is asked first; what the table gives is cached. */
    method Load(digest: Digest) returns (r: Result<CaDirectory, ReadError>)
      requires Valid()
      modifies Footprint()
      ensures Valid() && r == lookup(digest)
    {
      if cache == null {
        return lookup(digest);
      }
      var cached := cache.Get(digest);
      if cached.Some? {
        return Ok(cached.value);
      }
      r := lookup(digest);
      if r.Ok? {
        cache.Insert(digest, r.value);
      }
    }
  }
}
