/** The client's chunk store, and a chunk-level pull from the server into it. */
module ChunkStores {
  import opened Base
  import opened NarFormat
  import opened Merkle
  import opened NarCodec
  import opened Streaming
  import opened DirSources
  import opened StreamingWriter
  import opened CasStore
  import opened Castores
  import opened TreeWalks

  // --- What the tables must satisfy ---

  ghost predicate ChunksGenuine(c: Config, chunks: map<Digest, nat>, files: map<Digest, Bytes>) {
    && chunks.Keys == files.Keys
    && forall x :: c.hash(x) in files ==> files[c.hash(x)] == x
  }

  ghost predicate RowsGenuine(c: Config, rows: map<Digest, seq<ChunkRef>>) {
    forall x :: c.hash(x) in rows ==> rows[c.hash(x)] == Refs(c, x)
  }

  /** The client decodes without checking digests. */
  function ClientReader(c: Config, directories: map<Digest, Bytes>, rows: map<Digest, seq<ChunkRef>>,
                        files: map<Digest, Bytes>): Reader {
    Reader(Loadable(c, directories, false), rows, files, true)
  }

  lemma ClientIsGenuine(c: Config, directories: map<Digest, Bytes>, rows: map<Digest, seq<ChunkRef>>,
                        files: map<Digest, Bytes>)
    requires Sound(c) && DirsRight(c, directories)
    ensures Genuine(c, ClientReader(c, directories, rows, files))
  {
  }

  /** The client reads a file whole: of one with a missing chunk it writes nothing. */
  lemma ClientWritesWholeFiles(c: Config, directories: map<Digest, Bytes>, rows: map<Digest, seq<ChunkRef>>,
                               files: map<Digest, Bytes>, f: Digest, pieces: seq<Bytes>, i: nat)
    requires f in rows && i < |rows[f]| && |pieces| == i && rows[f][i].digest !in files
    requires forall j :: 0 <= j < i ==> rows[f][j].digest in files && files[rows[f][j].digest] == pieces[j]
    ensures FileOutput(ClientReader(c, directories, rows, files), f)
            == Output([], Some(NoChunk(rows[f][i].digest)))
  {
    MissingChunkCutsFile(ClientReader(c, directories, rows, files), f, pieces, i);
  }

  /** The client takes any row for the directory it is stored under. */
  lemma ClientTrustsRows(c: Config, directories: map<Digest, Bytes>, rows: map<Digest, seq<ChunkRef>>,
                         files: map<Digest, Bytes>, d: Digest, dir: CaDirectory)
    requires Sound(c)
    ensures var reader := ClientReader(c, directories[d := c.encode(dir)], rows, files);
            d in reader.dirs && reader.dirs[d] == dir
  {
    assert c.decode(c.encode(dir)) == Some(dir);
  }

  class ChunkStore {
    const cfg: Config
    var chunks: map<Digest, nat>
    var files: map<Digest, Bytes>
    var directories: map<Digest, Bytes>
    var fileChunks: map<Digest, seq<ChunkRef>>

    ghost predicate Valid()
      reads this
    {
      && Sound(cfg) && ChunksGenuine(cfg, chunks, files)
      && RowsGenuine(cfg, fileChunks) && DirsRight(cfg, directories)
    }

    constructor (cfg: Config)
      requires Sound(cfg)
      ensures Valid() && this.cfg == cfg && chunks == map[]
    {
      this.cfg := cfg;
      chunks, files, directories, fileChunks := map[], map[], map[], map[];
    }

    function LocalReader(): Reader
      reads this
    {
      ClientReader(cfg, directories, fileChunks, files)
    }

    /** An existing file is neither rewritten nor recorded again. */
    method StoreChunk(digest: Digest, data: Bytes)
      requires Valid() && digest == cfg.hash(data)
      modifies this`chunks, this`files
      ensures Valid()
      ensures files.Keys == old(files.Keys) + {digest}
      ensures forall d :: d in old(files) ==> d in files && files[d] == old(files)[d]
    {
      if digest !in files {
        files := files[digest := data];
        if digest !in chunks {
          chunks := chunks[digest := |data|];
        }
        PreimageIsUnique(cfg, data);
      }
    }

    method StoreDirectory(digest: Digest, data: Bytes)
      modifies this`directories
      ensures directories == if digest in old(directories) then old(directories)
                             else old(directories)[digest := data]
    {
      if digest !in directories {
        directories := directories[digest := data];
      }
    }

    method StoreFileChunks(file: Digest, refs: seq<ChunkRef>)
      modifies this`fileChunks
      ensures fileChunks == InsertRows(old(fileChunks), file, refs)
    {
      var i := 0;
      while i < |refs|
        invariant 0 <= i <= |refs|
        invariant fileChunks == InsertRows(old(fileChunks), file, refs[..i])
      {
        InsertRowsSnoc(old(fileChunks), file, refs, i);
        var rows := RowsOf(fileChunks, file);
        if i == |rows| {
          fileChunks := fileChunks[file := rows + [refs[i]]];
        }
        i := i + 1;
      }
      assert refs[..i] == refs;
    }

    /** Indexes the directories and mappings of a response before any chunk is fetched. */
    method IndexResponse(rows: seq<DirRow>, mappings: seq<FileMapping>, ghost xs: seq<Bytes>)
      requires Valid() && Addressed(cfg, rows) && forall m :: m in mappings ==> Maps(cfg, xs, m)
      modifies this`directories, this`fileChunks
      ensures Valid()
      ensures forall r :: r in rows ==> r.digest in directories
      ensures forall m :: m in mappings ==> m.file in fileChunks
    {
      IndexDirectories(rows);
      IndexMappings(mappings, xs);
    }

    method IndexMappings(mappings: seq<FileMapping>, ghost xs: seq<Bytes>)
      requires Valid() && forall m :: m in mappings ==> Maps(cfg, xs, m)
      modifies this`fileChunks
      ensures Valid() && forall m :: m in mappings ==> m.file in fileChunks
    {
      var i := 0;
      while i < |mappings|
        invariant 0 <= i <= |mappings| && Valid() && FilesOf(mappings[..i]) <= fileChunks.Keys
      {
        OneMoreFile(mappings, i);
        IndexMapping(mappings[i], xs);
        i := i + 1;
      }
      AllFiles(mappings, mappings[..i]);
    }

    method IndexMapping(m: FileMapping, ghost xs: seq<Bytes>)
      requires Valid() && Maps(cfg, xs, m)
      modifies this`fileChunks
      ensures Valid() && fileChunks.Keys == old(fileChunks.Keys) + {m.file}
    {
      MappingInserts(cfg, fileChunks, xs, m);
      if m.chunks != [] {
        StoreFileChunks(m.file, m.chunks);
      }
    }

    method IndexDirectories(rows: seq<DirRow>)
      requires Valid() && Addressed(cfg, rows)
      modifies this`directories
      ensures Valid()
      ensures forall r :: r in rows ==> r.digest in directories
    {
      var i := 0;
      while i < |rows|
        invariant 0 <= i <= |rows|
        invariant Valid()
        invariant forall k :: 0 <= k < i ==> rows[k].digest in directories
      {
        assert rows[i] in rows;
        DirectoryInserts(cfg, directories, rows[i]);
        StoreDirectory(rows[i].digest, cfg.encode(rows[i].dir));
        i := i + 1;
      }
    }

    /** Writes the archive of a root node from the local tables. */
    method WriteNar(root: CaNode, ghost t: NarNode) returns (r: Result<Bytes, ReadError>)
      requires Valid() && (root == CaEmpty || root == CaOf(cfg, t))
      ensures var o := NarOutput(cfg, LocalReader(), root, t);
              r == if o.error.Some? then Err(o.error.value) else Ok(o.bytes)
    {
      ClientIsGenuine(cfg, directories, fileChunks, files);
      var w := new ByteSink();
      var c, rows := cfg, directories;
      var src := new DirSource(d => LookupDir(c, rows, false, d), null);
      var written := WriteNarStreaming(w, root, LocalReader(), src, cfg, t);
      ghost var o := NarOutput(cfg, LocalReader(), root, t);
      assert [] + o.bytes == o.bytes;
      r := if written.Ok? then Ok(w.buf) else Err(written.error);
    }

    /** All chunk digests, in the order of the table. */
    method ListChunkDigests() returns (ds: seq<Digest>)
      ensures NoDuplicates(ds) && (forall d :: d in ds <==> d in chunks) && |ds| == |chunks|
    {
      ds := [];
      var todo := chunks.Keys;
      while todo != {}
        invariant todo <= chunks.Keys && |ds| + |todo| == |chunks.Keys|
        invariant NoDuplicates(ds) && forall d :: d in ds <==> d in chunks.Keys - todo
        decreases |todo|
      {
        var d :| d in todo;
        assert chunks.Keys - (todo - {d}) == chunks.Keys - todo + {d};
        ds := ds + [d];
        todo := todo - {d};
      }
    }
  }

  function FilesOf(mappings: seq<FileMapping>): set<Digest> { set m | m in mappings :: m.file }

  lemma OneMoreFile(mappings: seq<FileMapping>, i: nat)
    requires i < |mappings|
    ensures mappings[i] in mappings && FilesOf(mappings[..i + 1]) == FilesOf(mappings[..i]) + {mappings[i].file}
  {
    assert mappings[..i + 1] == mappings[..i] + [mappings[i]];
  }

  lemma AllFiles(mappings: seq<FileMapping>, all: seq<FileMapping>)
    requires all == mappings[..|mappings|]
    ensures forall m :: m in mappings ==> m.file in FilesOf(all)
  {
    assert all == mappings;
  }

  lemma PreimageIsUnique(c: Config, data: Bytes)
    requires Sound(c)
    ensures forall x :: c.hash(x) == c.hash(data) ==> x == data
  {
  }

  lemma DirectoryInserts(c: Config, directories: map<Digest, Bytes>, row: DirRow)
    requires Sound(c) && DirsRight(c, directories) && row.digest == c.hash(c.encode(row.dir))
    ensures DirsRight(c, directories[row.digest := c.encode(row.dir)])
  {
  }

  lemma MappingInserts(c: Config, rows: map<Digest, seq<ChunkRef>>, xs: seq<Bytes>, m: FileMapping)
    requires Sound(c) && RowsGenuine(c, rows) && Maps(c, xs, m)
    ensures var rows' := InsertRows(rows, m.file, m.chunks);
            && RowsGenuine(c, rows') && m.file in rows' && rows'.Keys == rows.Keys + {m.file}
            && m.chunks != []
  {
    var x :| x in xs && x != [] && m == FileMapping(c.hash(x), Refs(c, x));
    OnlyEmptyFilesHaveNoChunks(c, x);
    FileInserts(c, rows, x);
  }

  lemma FileInserts(c: Config, rows: map<Digest, seq<ChunkRef>>, x: Bytes)
    requires Sound(c) && RowsGenuine(c, rows) && Refs(c, x) != []
    ensures var f, rows' := c.hash(x), InsertRows(rows, c.hash(x), Refs(c, x));
            RowsGenuine(c, rows') && rows'.Keys == rows.Keys + {f}
  {
    var f, refs := c.hash(x), Refs(c, x);
    if f in rows {
      assert rows[f] == refs;
      assert rows.Keys == rows.Keys + {f};
    } else {
      assert RowsOf(rows, f) + refs[|RowsOf(rows, f)|..] == refs;
      NewFileIsGenuine(c, rows, x);
    }
  }

  lemma NewFileIsGenuine(c: Config, rows: map<Digest, seq<ChunkRef>>, x: Bytes)
    requires Sound(c) && RowsGenuine(c, rows)
    ensures RowsGenuine(c, rows[c.hash(x) := Refs(c, x)])
  {
    PreimageIsUnique(c, x);
  }
}
