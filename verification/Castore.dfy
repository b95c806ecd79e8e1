/** The server backend: SQLite tables and chunk files as fields, updated step by step, with every
    operation proved equal to its effect in `CasStore` and the abstract map kept beside it. */
module Castores {
  import opened Base
  import opened PathNames
  import opened NarFormat
  import opened Merkle
  import opened NarCodec
  import opened Streaming
  import opened StreamingWriter
  import opened DirCaches
  import opened DirSources
  import opened CasStore
  import opened CasInvariant
  import opened CasEviction
  import opened CasReads
  import opened Manifests
  import opened ReturnedArchives

  /** A request that changes the store. */
  datatype Call =
    | CallPutNar(filePath: string, data: Bytes, now: nat)
    | CallPutNarinfo(hash: Hash, now: nat)
    | CallStoreChunk(data: Bytes)
    | CallAccess(hashes: seq<Hash>, now: nat)
    | CallEvict(hash: Hash)

  function OpOf(call: Call): Op {
    match call
    case CallPutNar(filePath, data, now) => OpPutNar(NarPathHash(filePath), data, now)
    case CallPutNarinfo(h, now) => OpPutNarinfo(h, now)
    case CallStoreChunk(data) => OpStoreChunk(data)
    case CallAccess(hashes, now) => OpAccess(hashes, now)
    case CallEvict(h) => OpEvict(h)
  }

  /** The store after `calls`. */
  function After(c: Config, s: Store, calls: seq<Call>): Store {
    if calls == [] then s else Step(c, After(c, s, calls[..|calls| - 1]), OpOf(calls[|calls| - 1]))
  }

  function AbsAfter(m: Catalog, calls: seq<Call>): Catalog {
    if calls == [] then m else AbsStep(AbsAfter(m, calls[..|calls| - 1]), OpOf(calls[|calls| - 1]))
  }

  class Castore {
    const cfg: Config
    const dirCache: DirCache
    var paths: map<Hash, PathRow>
    var pathFiles: set<(Hash, Digest)>
    var fileChunks: map<Digest, seq<ChunkRef>>
    var chunks: map<Digest, ChunkRow>
    var directories: map<Digest, Bytes>
    var files: map<Digest, Bytes>
    /** What has been put and not evicted since. */
    ghost var catalog: Catalog

    function State(): Store
      reads this
    {
      Store(paths, pathFiles, fileChunks, chunks, directories, files)
    }

    /** A cached directory is what the table would give. */
    ghost predicate CacheCoherent()
      reads this, dirCache
    {
      && dirCache.Logged()
      && forall d :: d in dirCache.table ==> LookupDir(cfg, directories, true, d) == Ok(dirCache.table[d])
    }

    ghost predicate TablesValid()
      reads this
    {
      Sound(cfg) && Inv(cfg, State(), catalog) && FilesOwned(State()) && TreesFit(catalog)
    }

    ghost predicate Valid()
      reads this, dirCache
    {
      TablesValid() && CacheCoherent()
    }

    constructor (cfg: Config)
      requires Sound(cfg)
      ensures Valid() && State() == EMPTY && catalog == map[] && this.cfg == cfg && fresh(dirCache)
    {
      this.cfg := cfg;
      dirCache := new DirCache(DIR_CACHE_CAPACITY);
      paths, pathFiles, fileChunks := map[], {}, map[];
      chunks, directories, files := map[], map[], map[];
      catalog := map[];
      new;
      EmptyIsRight(cfg);
    }

    // --- Chunks ---

    /** Inline chunks get no file; an existing file is left alone and reported without a level. */
    method WriteChunkFile(data: Bytes) returns (digest: Digest, level: Option<int>, diskSize: nat)
      modifies this`files
      ensures digest == cfg.hash(data)
      ensures |data| < INLINE_THRESHOLD ==> files == old(files) && level == None && diskSize == 0
      ensures |data| >= INLINE_THRESHOLD && digest in old(files) ==>
                files == old(files) && level == None && diskSize == |files[digest]|
      ensures |data| >= INLINE_THRESHOLD && digest !in old(files) ==>
                && files == old(files)[digest := FileFor(cfg, data)]
                && level == LevelFor(cfg, data) && diskSize == |files[digest]|
    {
      digest := cfg.hash(data);
      if |data| < INLINE_THRESHOLD {
        return digest, None, 0;
      }
      if digest !in files {
        var compressed := cfg.compress(data);
        var bytesToWrite := data;
        level := None;
        if |compressed| < |data| {
          bytesToWrite := compressed;
          level := Some(cfg.level);
        }
        files := files[digest := bytesToWrite];
        return digest, level, |bytesToWrite|;
      }
      return digest, None, |files[digest]|;
    }

    method InsertChunkRow(digest: Digest, size: nat, level: Option<int>, diskSize: nat,
                          inlineData: Option<Bytes>)
      modifies this`chunks
      ensures chunks == if digest in old(chunks) then old(chunks)
                        else old(chunks)[digest := ChunkRow(size, level, diskSize, inlineData)]
    {
      if digest !in chunks {
        chunks := chunks[digest := ChunkRow(size, level, diskSize, inlineData)];
      }
    }

    method StoreChunk(data: Bytes) returns (digest: Digest)
      modifies this`files, this`chunks
      ensures State() == InsertChunk(cfg, old(State()), data) && digest == cfg.hash(data)
    {
      var level, diskSize;
      digest, level, diskSize := WriteChunkFile(data);
      var inlineData := if |data| < INLINE_THRESHOLD then Some(data) else None;
      InsertChunkRow(digest, |data|, level, diskSize, inlineData);
    }

    method StoreChunkExternal(data: Bytes) returns (digest: Digest)
      requires Valid()
      modifies this`files, this`chunks
      ensures Valid() && catalog == old(catalog)
      ensures State() == Step(cfg, old(State()), OpStoreChunk(data)) && digest == cfg.hash(data)
    {
      StoreChunkKeepsInv(cfg, State(), catalog, data);
      digest := StoreChunk(data);
    }

    method GetChunkByDigest(digest: Digest) returns (r: ChunkAnswer)
      ensures r == GetChunk(cfg, State(), digest)
    {
      if digest !in chunks {
        return Ok(None);
      }
      var row := chunks[digest];
      match row.data
      case Some(data) => r := Ok(Some(data));
      case None =>
        if digest !in files {
          return Ok(None);
        }
        var fileBytes := files[digest];
        if row.level.Some? {
          match cfg.decompress(fileBytes, CHUNK_MAX * 2)
          case Some(data) => r := Ok(Some(data));
          case None => r := Err(CorruptChunk(digest));
        } else {
          r := Ok(Some(fileBytes));
        }
    }

    // --- Ingesting ---

    method InsertFileChunkRow(file: Digest, index: nat, ref: ChunkRef)
      requires index <= |RowsOf(fileChunks, file)|
      modifies this`fileChunks
      ensures fileChunks == InsertRow(old(fileChunks), file, index, ref)
    {
      var rows := if file in fileChunks then fileChunks[file] else [];
      if index == |rows| {
        fileChunks := fileChunks[file := rows + [ref]];
      }
    }

    method IngestFile(data: Bytes) returns (digest: Digest, size: nat)
      requires Sound(cfg)
      modifies this`files, this`chunks, this`fileChunks
      ensures State() == InsertFile(cfg, old(State()), data)
      ensures digest == cfg.hash(data) && size == |data|
    {
      var refs;
      refs, size := StoreChunks(cfg.chunk(data));
      assert Flatten(cfg.chunk(data)) == data;
      digest := cfg.hash(data);
      InsertFileRows(digest, refs);
    }

    method StoreChunks(pieces: seq<Bytes>) returns (refs: seq<ChunkRef>, size: nat)
      modifies this`files, this`chunks
      ensures State() == InsertChunks(cfg, old(State()), pieces)
      ensures refs == RefsOf(cfg, pieces) && size == |Flatten(pieces)|
    {
      refs := [];
      size := 0;
      ghost var goal := InsertChunks(cfg, State(), pieces);
      var i := 0;
      assert pieces[0..] == pieces;
      while i < |pieces|
        invariant 0 <= i <= |pieces|
        invariant refs == RefsOf(cfg, pieces[..i])
        invariant size + |Flatten(pieces[i..])| == |Flatten(pieces)|
        invariant InsertChunks(cfg, State(), pieces[i..]) == goal
      {
        assert pieces[i..][1..] == pieces[i + 1..];
        var d := StoreChunk(pieces[i]);
        refs := refs + [ChunkRef(d, |pieces[i]|)];
        size := size + |pieces[i]|;
        i := i + 1;
      }
      assert pieces[..i] == pieces;
    }

    method InsertFileRows(file: Digest, refs: seq<ChunkRef>)
      modifies this`fileChunks
      ensures fileChunks == InsertRows(old(fileChunks), file, refs)
    {
      var i := 0;
      while i < |refs|
        invariant 0 <= i <= |refs|
        invariant fileChunks == InsertRows(old(fileChunks), file, refs[..i])
      {
        InsertRowsSnoc(old(fileChunks), file, refs, i);
        InsertFileChunkRow(file, i, refs[i]);
        i := i + 1;
      }
      assert refs[..i] == refs;
    }

    method InsertDirectory(dir: CaDirectory) returns (digest: Digest)
      modifies this`directories
      ensures State() == InsertDir(cfg, old(State()), dir) && digest == cfg.hash(cfg.encode(dir))
    {
      var encoded := cfg.encode(dir);
      digest := cfg.hash(encoded);
      if digest !in directories {
        directories := directories[digest := encoded];
      }
    }

    method IngestNode(node: NarNode) returns (ca: CaNode)
      requires Sound(cfg)
      modifies this`files, this`chunks, this`fileChunks, this`directories
      ensures State() == Ingest(cfg, old(State()), node) && ca == CaOf(cfg, node)
      decreases node, 1
    {
      match node
      case Regular(executable, data) =>
        var digest, size := IngestFile(data);
        ca := CaFile(digest, size, executable);
      case Directory(entries) =>
        var caEntries := IngestDirEntries(entries);
        var digest := InsertDirectory(CaDirectory(caEntries));
        ca := CaDir(digest, |entries|);
      case Symlink(target) =>
        ca := CaSymlink(target);
    }

    method IngestDirEntries(entries: seq<DirEntry>) returns (caEntries: seq<CaEntry>)
      requires Sound(cfg)
      modifies this`files, this`chunks, this`fileChunks, this`directories
      ensures State() == IngestEntries(cfg, old(State()), entries) && caEntries == CaEntries(cfg, entries)
      decreases entries, 0
    {
      caEntries := [];
      ghost var goal := IngestEntries(cfg, State(), entries);
      var i := 0;
      assert entries[0..] == entries;
      while i < |entries|
        invariant 0 <= i <= |entries|
        invariant IngestEntries(cfg, State(), entries[i..]) == goal
        invariant caEntries + CaEntries(cfg, entries[i..]) == CaEntries(cfg, entries)
      {
        assert entries[i..][1..] == entries[i + 1..];
        var child := IngestNode(entries[i].node);
        caEntries := caEntries + [CaEntry(entries[i].name, child)];
        i := i + 1;
      }
    }

    /** Walks the tree just ingested through the table, without checking digests. */
    method CollectFileDigests(node: CaNode, acc: set<Digest>, ghost t: NarNode) returns (r: set<Digest>)
      requires Sound(cfg) && DirsRight(cfg, directories) && node == CaOf(cfg, t)
      requires forall row :: row in Dirs(cfg, t) ==> row.digest in directories
      ensures r == acc + FileDigests(cfg, t)
      decreases t, 1
    {
      match node
      case CaFile(digest, _, _) =>
        r := acc + {digest};
        assert Contents(t) == [t.data] && Hashes(cfg, [t.data]) == {digest};
      case CaDir(digest, _) =>
        r := acc;
        DirIsStored(t);
        assert cfg.decode(cfg.encode(DirOf(cfg, t.entries))) == Some(DirOf(cfg, t.entries));
        if digest in directories {
          var decoded := cfg.decode(directories[digest]);
          if decoded.Some? {
            r := CollectEntries(decoded.value.entries, acc, t.entries);
            assert Contents(t) == EntriesContents(t.entries);
          }
        }
      case CaSymlink(_) =>
        r := acc;
        assert Contents(t) == [] && Hashes(cfg, []) == {};
      case CaEmpty =>
        r := acc;
    }

    method CollectEntries(entries: seq<CaEntry>, acc: set<Digest>, ghost es: seq<DirEntry>)
      returns (r: set<Digest>)
      requires Sound(cfg) && DirsRight(cfg, directories) && entries == CaEntries(cfg, es)
      requires forall row :: row in EntriesDirs(cfg, es) ==> row.digest in directories
      ensures r == acc + Hashes(cfg, EntriesContents(es))
      decreases es, 0
    {
      r := acc;
      var i := 0;
      assert es[0..] == es;
      while i < |entries|
        invariant 0 <= i <= |entries|
        invariant r + Hashes(cfg, EntriesContents(es[i..])) == acc + Hashes(cfg, EntriesContents(es))
        invariant forall row :: row in EntriesDirs(cfg, es[i..]) ==> row.digest in directories
      {
        CaEntriesAt(cfg, es, i);
        assert es[i..][1..] == es[i + 1..];
        HashesAppend(cfg, Contents(es[i].node), EntriesContents(es[i + 1..]));
        r := CollectFileDigests(entries[i].node, r, es[i].node);
        i := i + 1;
      }
    }

    lemma DirIsStored(t: NarNode)
      requires t.Directory? && DirsRight(cfg, directories)
      requires forall row :: row in Dirs(cfg, t) ==> row.digest in directories
      ensures DirDigest(cfg, t.entries) in directories
      ensures directories[DirDigest(cfg, t.entries)] == cfg.encode(DirOf(cfg, t.entries))
      ensures forall row :: row in EntriesDirs(cfg, t.entries) ==> row.digest in directories
    {
      var rows := Dirs(cfg, t);
      assert rows[|rows| - 1] == DirRowOf(cfg, t.entries);
      assert forall row :: row in EntriesDirs(cfg, t.entries) ==> row in rows;
    }

    // --- The public operations ---

    method RecordPathFiles(h: Hash, digests: set<Digest>)
      modifies this`pathFiles
      ensures pathFiles == old(pathFiles) + (set f | f in digests :: (h, f))
    {
      var todo := digests;
      while todo != {}
        invariant todo <= digests
        invariant pathFiles == old(pathFiles) + (set f | f in digests - todo :: (h, f))
        decreases |todo|
      {
        var f :| f in todo;
        pathFiles := pathFiles + {(h, f)};
        todo := todo - {f};
      }
      assert digests - todo == digests;
    }

    method PutNar(filePath: string, data: Bytes, now: nat) returns (r: Result<bool, NarError>)
      requires Valid()
      modifies this`files, this`chunks, this`fileChunks, this`directories, this`pathFiles, this`paths,
               this`catalog
      ensures Valid()
      ensures var op := OpPutNar(NarPathHash(filePath), data, now);
              && State() == Step(cfg, old(State()), op)
              && catalog == AbsStep(old(catalog), op)
      ensures r == match ParseNar(data) case Ok(_) => Ok(true) case Err(error) => Err(error)
    {
      var h := NarPathHash(filePath);
      var parsed := ParseNarBytes(data);
      if parsed.Err? {
        return Err(parsed.error);
      }
      ParsedNarIsRepresentable(data);
      PutTreeKeepsInv(cfg, State(), catalog, h, parsed.value, now);
      PutTreeKeepsFilesOwned(cfg, State(), h, parsed.value, now);
      PutRows(h, parsed.value, now);
      catalog := catalog[h := Holding(parsed.value)];
      r := Ok(true);
    }

    /** The single transaction of `PutNar`. */
    method PutRows(h: Hash, t: NarNode, now: nat)
      requires Sound(cfg) && TablesRight(cfg, State()) && CacheCoherent()
      modifies this`files, this`chunks, this`fileChunks, this`directories, this`pathFiles, this`paths
      ensures State() == PutTree(cfg, old(State()), h, t, now) && CacheCoherent()
    {
      var root, digests := IngestTree(t);
      RecordPathFiles(h, digests);
      paths := paths[h := PathRow(root, now)];
    }

    method IngestTree(t: NarNode) returns (root: CaNode, digests: set<Digest>)
      requires Sound(cfg) && TablesRight(cfg, State()) && CacheCoherent()
      modifies this`files, this`chunks, this`fileChunks, this`directories
      ensures State() == Ingest(cfg, old(State()), t) && CacheCoherent()
      ensures root == CaOf(cfg, t) && digests == FileDigests(cfg, t)
    {
      IngestKeepsDirs(cfg, State(), t);
      root := IngestNode(t);
      digests := CollectFileDigests(root, {}, t);
      assert {} + FileDigests(cfg, t) == FileDigests(cfg, t);
    }

    /** Metadata for a path; its tree, if there is one, is kept. */
    method PutNarinfo(h: Hash, now: nat)
      requires Valid()
      modifies this`paths, this`catalog
      ensures Valid()
      ensures State() == Step(cfg, old(State()), OpPutNarinfo(h, now))
      ensures catalog == AbsStep(old(catalog), OpPutNarinfo(h, now))
    {
      PutNarinfoKeepsInv(cfg, State(), catalog, h, now);
      PutNarinfoRow(h, now);
      catalog := AbsStep(catalog, OpPutNarinfo(h, now));
    }

    method PutNarinfoRow(h: Hash, now: nat)
      modifies this`paths
      ensures State() == CasStore.PutNarinfo(old(State()), h, now)
    {
      if h in paths {
        paths := paths[h := PathRow(paths[h].root, now)];
      } else {
        paths := paths[h := PathRow(CaEmpty, now)];
      }
    }

    /** Records that the paths of a batch were accessed, each once, to the hour. */
    method UpdateAccess(hashes: seq<Hash>, now: nat)
      requires Valid()
      modifies this`paths
      ensures Valid() && catalog == old(catalog)
      ensures State() == Step(cfg, old(State()), OpAccess(hashes, now))
    {
      UpdateAccessKeepsInv(cfg, State(), catalog, hashes, now);
      UpdateAccessRows(hashes, now);
    }

    method UpdateAccessRows(hashes: seq<Hash>, now: nat)
      modifies this`paths
      ensures State() == CasStore.UpdateAccess(old(State()), hashes, now)
    {
      var quantized := now - now % 3600;
      var unique := SetOf(hashes);
      var todo := unique;
      NothingAccessed(paths, quantized);
      assert unique - todo == {};
      while todo != {}
        invariant todo <= unique && paths == Accessed(old(paths), unique - todo, quantized)
        decreases |todo|
      {
        var h :| h in todo;
        OneMoreAccessed(old(paths), unique - todo, h, quantized);
        assert unique - todo + {h} == unique - (todo - {h});
        if h in paths {
          paths := paths[h := PathRow(paths[h].root, quantized)];
        }
        todo := todo - {h};
      }
      assert unique - todo == unique;
    }

    /** Directories as they are loaded: from the table, checked, through the cache. */
    method Directories() returns (src: DirSource)
      requires CacheCoherent()
      ensures fresh(src) && src.Valid() && src.cache == dirCache
      ensures forall d :: src.lookup(d) == LookupDir(cfg, directories, true, d)
      ensures src.Backs(ServerReader(cfg, State()))
    {
      var c, rows := cfg, directories;
      src := new DirSource(d => LookupDir(c, rows, true, d), dirCache);
    }

    /** False if there is no such path; after an error the sink keeps what was written before it. */
    method WriteNarTo(filePath: string, w: ByteSink) returns (r: Result<bool, ReadError>)
      requires Valid()
      modifies w, dirCache
      ensures Valid()
      ensures match AbsWritten(catalog, NarPathHash(filePath))
              case None => r == Ok(false) && w.buf == old(w.buf)
              case Some(o) =>
                && w.buf == old(w.buf) + o.bytes
                && r == if o.error.Some? then Err(o.error.value) else Ok(true)
    {
      var h := NarPathHash(filePath);
      if h !in paths {
        return Ok(false);
      }
      ghost var tree := if catalog[h].Holding? then catalog[h].tree else Symlink([]);
      PathIsWritten(cfg, State(), catalog, h, tree);
      var written := WriteRoot(w, paths[h].root, tree);
      r := if written.Ok? then Ok(true) else Err(written.error);
    }

    method WriteRoot(w: ByteSink, root: CaNode, ghost tree: NarNode) returns (r: Result<(), ReadError>)
      requires Sound(cfg) && CacheCoherent() && (root == CaEmpty || root == CaOf(cfg, tree))
      modifies w, dirCache
      ensures CacheCoherent()
      ensures Wrote(r, old(w.buf), w.buf, NarOutput(cfg, ServerReader(cfg, State()), root, tree))
    {
      ServerIsGenuine(cfg, State());
      var src := Directories();
      r := WriteNarStreaming(w, root, ServerReader(cfg, State()), src, cfg, tree);
    }

    method GetNar(filePath: string) returns (r: NarAnswer)
      requires Valid()
      modifies dirCache
      ensures Valid() && r == AbsRead(catalog, NarPathHash(filePath))
      ensures r.Ok? && r.value.Some? ==>
                var h := NarPathHash(filePath);
                h in catalog && catalog[h].Holding? && IsSortedArchive(r.value.value, catalog[h].tree)
    {
      var w := new ByteSink();
      HeldReadsSorted(catalog, NarPathHash(filePath));
      var found := WriteNarTo(filePath, w);
      ghost var o := AbsWritten(catalog, NarPathHash(filePath));
      assert o.Some? ==> [] + o.value.bytes == o.value.bytes;
      match found
      case Ok(true) => r := Ok(Some(w.buf));
      case Ok(false) => r := Ok(None);
      case Err(error) => r := Err(error);
    }

    // --- Any request ---

    method Do(call: Call)
      requires Valid()
      modifies this
      ensures Valid()
      ensures State() == Step(cfg, old(State()), OpOf(call)) && catalog == AbsStep(old(catalog), OpOf(call))
    {
      match call
      case CallPutNar(filePath, data, now) => var r := PutNar(filePath, data, now);
      case CallPutNarinfo(h, now) => PutNarinfo(h, now);
      case CallStoreChunk(data) => var digest := StoreChunkExternal(data);
      case CallAccess(hashes, now) => UpdateAccess(hashes, now);
      case CallEvict(h) => var freed := EvictPath(h);
    }

    method DoAll(calls: seq<Call>)
      requires Valid()
      modifies this
      ensures Valid()
      ensures State() == After(cfg, old(State()), calls) && catalog == AbsAfter(old(catalog), calls)
    {
      ghost var before, m := State(), catalog;
      var i := 0;
      while i < |calls|
        invariant 0 <= i <= |calls| && Valid()
        invariant State() == After(cfg, before, calls[..i]) && catalog == AbsAfter(m, calls[..i])
      {
        assert calls[..i + 1][..i] == calls[..i];
        Do(calls[i]);
        i := i + 1;
      }
      assert calls[..i] == calls;
    }

    // --- Evicting ---

    /** Returns the recorded size of the chunks deleted. */
    method EvictPath(h: Hash) returns (freed: nat)
      requires Valid()
      modifies this`paths, this`pathFiles, this`fileChunks, this`chunks, this`files, this`catalog
      ensures Valid()
      ensures State() == Step(cfg, old(State()), OpEvict(h)) && catalog == old(catalog) - {h}
      ensures freed == Freed(old(State()), h) == TotalBytes(old(State())) - TotalBytes(State())
    {
      EvictKeepsInv(cfg, State(), catalog, h);
      EvictKeepsFilesOwned(State(), h);
      freed := EvictUnchecked(h);
    }

    /** The effect of `EvictPath` alone, for callers that establish the invariant for many evictions at once. */
    method EvictUnchecked(h: Hash) returns (freed: nat)
      modifies this`paths, this`pathFiles, this`fileChunks, this`chunks, this`files, this`catalog
      ensures State() == Evict(old(State()), h) && catalog == old(catalog) - {h}
      ensures freed == Freed(old(State()), h) == TotalBytes(old(State())) - TotalBytes(State())
    {
      EvictConservesBytes(State(), h);
      freed := DeleteRows(h);
      catalog := catalog - {h};
    }

    /** The single transaction of `EvictPath`. */
    method DeleteRows(h: Hash) returns (freed: nat)
      modifies this`paths, this`pathFiles, this`fileChunks, this`chunks, this`files
      ensures State() == Evict(old(State()), h) && freed == Freed(old(State()), h)
    {
      ghost var before := State();
      var digests := set p | p in pathFiles && p.0 == h :: p.1;
      DeletePathRows(h);
      if digests == {} {
        NothingToDrop(before, h);
        return 0;
      }
      var candidates := DropFiles(h, digests, before);
      freed := DropChunks(candidates);
    }

    method DeletePathRows(h: Hash)
      modifies this`paths, this`pathFiles
      ensures paths == old(paths) - {h}
      ensures pathFiles == set p | p in old(pathFiles) && p.0 != h
    {
      paths := paths - {h};
      pathFiles := set p | p in pathFiles && p.0 != h;
    }

    /** Deletes the rows of the files no remaining path has; returns the chunks they listed. */
    method DropFiles(h: Hash, digests: set<Digest>, ghost before: Store) returns (candidates: set<Digest>)
      requires digests == Owned(before, h) && pathFiles == PathFilesWithout(before, h)
      requires fileChunks == before.fileChunks
      modifies this`fileChunks
      ensures fileChunks == before.fileChunks - DeadFiles(before, h)
      ensures candidates == ChunksOfFiles(before.fileChunks, DeadFiles(before, h))
    {
      ghost var dead := DeadFiles(before, h);
      candidates := {};
      var todo := digests;
      while todo != {}
        invariant todo <= digests
        invariant fileChunks == before.fileChunks - (dead - todo)
        invariant candidates == ChunksOfFiles(before.fileChunks, dead - todo)
        decreases |todo|
      {
        var f :| f in todo;
        var stillReferenced := exists p :: p in pathFiles && p.1 == f;
        assert stillReferenced <==> f !in dead;
        if !stillReferenced {
          DropOneFile(before.fileChunks, dead - todo, f);
          candidates := candidates + ChunksOf(RowsOf(fileChunks, f));
          fileChunks := fileChunks - {f};
          assert dead - (todo - {f}) == dead - todo + {f};
        } else {
          assert dead - (todo - {f}) == dead - todo;
        }
        todo := todo - {f};
      }
      assert dead - todo == dead;
    }

    /** Deletes those of the candidates that no remaining file lists. */
    method DropChunks(candidates: set<Digest>) returns (freed: nat)
      modifies this`chunks, this`files
      ensures Dropped(fileChunks, candidates, old(chunks), old(files), chunks, files, freed)
    {
      ghost var done: set<Digest> := {};
      freed := 0;
      var todo := candidates;
      NothingDropped(fileChunks, chunks, files);
      while todo != {}
        invariant todo <= candidates && done == candidates - todo
        invariant Dropped(fileChunks, done, old(chunks), old(files), chunks, files, freed)
        decreases |todo|
      {
        var d :| d in todo;
        var size := DropUnlessListed(d);
        OneMoreDropped(fileChunks, done, old(chunks), old(files), freed, d);
        freed := freed + size;
        done := done + {d};
        todo := todo - {d};
      }
      assert done == candidates;
    }

    /** Deletes row and file of a chunk that no file lists; returns the recorded size. */
    method DropUnlessListed(d: Digest) returns (size: nat)
      modifies this`chunks, this`files
      ensures var gone := Unlisted(fileChunks, {d});
              && chunks == old(chunks) - gone && files == old(files) - gone
              && size == SizeIn(old(chunks), gone, d)
    {
      if Mentions(fileChunks, d) {
        assert Unlisted(fileChunks, {d}) == {};
        return 0;
      }
      assert Unlisted(fileChunks, {d}) == {d};
      size := if d in chunks then chunks[d].size else 0;
      chunks := chunks - {d};
      files := files - {d};
    }

    /** SUM(size) over the chunk table. */
    method TotalChunkBytes() returns (total: nat)
      ensures total == TotalBytes(State())
    {
      total := 0;
      var todo := chunks.Keys;
      while todo != {}
        invariant todo <= chunks.Keys
        invariant total + SizeOf(chunks, todo) == SizeOf(chunks, chunks.Keys)
        decreases |todo|
      {
        var d :| d in todo;
        SizeOfRemove(chunks, todo, d);
        total := total + chunks[d].size;
        todo := todo - {d};
      }
    }
  }

  lemma NothingAccessed(paths: map<Hash, PathRow>, time: nat)
    ensures Accessed(paths, {}, time) == paths
  {
  }

  lemma OneMoreAccessed(paths: map<Hash, PathRow>, hs: set<Hash>, h: Hash, time: nat)
    ensures var done := Accessed(paths, hs, time);
            Accessed(paths, hs + {h}, time) == if h in done then done[h := PathRow(done[h].root, time)] else done
  {
  }

  lemma HashesAppend(c: Config, xs: seq<Bytes>, ys: seq<Bytes>)
    ensures Hashes(c, xs + ys) == Hashes(c, xs) + Hashes(c, ys)
  {
  }

  lemma InsertRowsSnoc(rows: map<Digest, seq<ChunkRef>>, f: Digest, refs: seq<ChunkRef>, i: nat)
    requires i < |refs|
    ensures i <= |RowsOf(InsertRows(rows, f, refs[..i]), f)|
    ensures InsertRow(InsertRows(rows, f, refs[..i]), f, i, refs[i]) == InsertRows(rows, f, refs[..i + 1])
  {
    var had := RowsOf(rows, f);
    if i > |had| {
      assert refs[..i + 1][|had|..] == refs[..i][|had|..] + [refs[i]];
      assert had + refs[..i][|had|..] + [refs[i]] == had + refs[..i + 1][|had|..];
    } else if i == |had| {
      assert refs[..i + 1][i..] == [refs[i]];
    }
  }

  /** A path without recorded files drags nothing else along. */
  lemma NothingToDrop(s: Store, h: Hash)
    requires Owned(s, h) == {}
    ensures DeadFiles(s, h) == {} && DeadChunks(s, h) == {} && Freed(s, h) == 0
    ensures s.fileChunks - {} == s.fileChunks && s.chunks - {} == s.chunks && s.files - {} == s.files
  {
  }

  lemma DropOneFile(rows: map<Digest, seq<ChunkRef>>, gone: set<Digest>, f: Digest)
    requires f !in gone
    ensures rows - gone - {f} == rows - (gone + {f})
    ensures ChunksOfFiles(rows, gone + {f}) == ChunksOfFiles(rows, gone) + ChunksOf(RowsOf(rows - gone, f))
  {
  }

  function Unlisted(rows: map<Digest, seq<ChunkRef>>, ds: set<Digest>): set<Digest> {
    set d | d in ds && !Mentions(rows, d)
  }

  function SizeIn(chunks: map<Digest, ChunkRow>, gone: set<Digest>, d: Digest): nat {
    if d in gone && d in chunks then chunks[d].size else 0
  }

  /** The chunks `ds` have been looked at; those that no file lists are gone and counted. */
  ghost predicate Dropped(rows: map<Digest, seq<ChunkRef>>, ds: set<Digest>,
                          chunks: map<Digest, ChunkRow>, files: map<Digest, Bytes>,
                          chunks': map<Digest, ChunkRow>, files': map<Digest, Bytes>, freed: nat) {
    var gone := Unlisted(rows, ds);
    chunks' == chunks - gone && files' == files - gone && freed == SizeOf(chunks, gone)
  }

  lemma NothingDropped(rows: map<Digest, seq<ChunkRef>>, chunks: map<Digest, ChunkRow>, files: map<Digest, Bytes>)
    ensures Dropped(rows, {}, chunks, files, chunks, files, 0)
  {
  }

  lemma OneMoreDropped(rows: map<Digest, seq<ChunkRef>>, ds: set<Digest>, chunks: map<Digest, ChunkRow>,
                       files: map<Digest, Bytes>, freed: nat, d: Digest)
    requires d !in ds && freed == SizeOf(chunks, Unlisted(rows, ds))
    ensures var gone, one := Unlisted(rows, ds), Unlisted(rows, {d});
            Dropped(rows, ds + {d}, chunks, files, chunks - gone - one, files - gone - one,
                    freed + SizeIn(chunks - gone, one, d))
  {
    var gone, one := Unlisted(rows, ds), Unlisted(rows, {d});
    assert Unlisted(rows, ds + {d}) == gone + one;
    assert chunks - gone - one == chunks - (gone + one) && files - gone - one == files - (gone + one);
    if one == {} {
      assert gone + one == gone;
    } else {
      assert d in one;
      SizeOfRemove(chunks, gone + one, d);
      assert gone + one - {d} == gone;
    }
  }

  lemma IngestKeepsDirs(c: Config, s: Store, t: NarNode)
    requires Sound(c) && TablesRight(c, s)
    ensures DirsRight(c, Ingest(c, s, t).directories)
    ensures forall row :: row in Dirs(c, t) ==> row.digest in Ingest(c, s, t).directories
    ensures forall d :: d in s.directories ==>
              d in Ingest(c, s, t).directories && Ingest(c, s, t).directories[d] == s.directories[d]
    ensures Ingest(c, s, t).paths == s.paths && Ingest(c, s, t).pathFiles == s.pathFiles
  {
    IngestAdds(c, s, t);
    AddedHolds(c, s, Ingest(c, s, t), t);
  }

  /** What the streaming writer is asked to write for `h` is what the abstract map says. */
  lemma PathIsWritten(c: Config, s: Store, m: Catalog, h: Hash, tree: NarNode)
    requires Sound(c) && Inv(c, s, m) && h in s.paths
    requires m[h].Holding? ==> tree == m[h].tree
    ensures var root := s.paths[h].root;
            && (root == CaEmpty || root == CaOf(c, tree))
            && AbsWritten(m, h) == Some(NarOutput(c, ServerReader(c, s), root, tree))
  {
    if m[h].Holding? {
      assert PathRight(c, s, h, tree);
      HeldTreeIsWritten(c, s, tree);
    } else {
      assert Str(MAGIC) + [] == Str(MAGIC);
    }
  }
}
