/** Reading the store: what `get_chunk`, `load_directory` and `get_nar` answer, and the theorem
    that every run of the store answers like the abstract map. */
module CasReads {
  import opened Base
  import opened NarFormat
  import opened NarRoundTrip
  import opened NameOrder
  import opened Merkle
  import opened NarCodec
  import opened Streaming
  import opened DirSources
  import opened CasStore
  import opened CasEviction

  datatype ChunkError = CorruptChunk(digest: Digest)

  type ChunkAnswer = Result<Option<Bytes>, ChunkError>

  /** Decompression is limited to twice the maximal chunk size. */
  function GetChunk(c: Config, s: Store, d: Digest): ChunkAnswer {
    if d !in s.chunks then Ok(None)
    else if s.chunks[d].data.Some? then Ok(s.chunks[d].data)
    else if d !in s.files then Ok(None)
    else if s.chunks[d].level.None? then Ok(Some(s.files[d]))
    else
      match c.decompress(s.files[d], CHUNK_MAX * 2)
      case Some(data) => Ok(Some(data))
      case None => Err(CorruptChunk(d))
  }

  /** What the server answers as a chunk reader. */
  function ServerReader(c: Config, s: Store): Reader {
    Reader(Loadable(c, s.directories, true),
           s.fileChunks,
           map d | d in s.chunks && Readable(GetChunk(c, s, d)) :: GetChunk(c, s, d).value.value,
           false)
  }

  predicate Readable(answer: ChunkAnswer) { answer.Ok? && answer.value.Some? }

  /** The digest check makes the reader genuine, whatever the tables hold. */
  lemma ServerIsGenuine(c: Config, s: Store)
    requires Sound(c)
    ensures Genuine(c, ServerReader(c, s))
  {
  }

  /** The server streams: of a file with an unreadable chunk it writes the chunks before it. */
  lemma ServerWritesUpToMissing(c: Config, s: Store, f: Digest, pieces: seq<Bytes>, i: nat)
    requires f in s.fileChunks && i < |s.fileChunks[f]| && |pieces| == i
    requires !Readable(GetChunk(c, s, s.fileChunks[f][i].digest))
    requires forall j :: 0 <= j < i ==> GetChunk(c, s, s.fileChunks[f][j].digest) == Ok(Some(pieces[j]))
    ensures FileOutput(ServerReader(c, s), f)
            == Output(Flatten(pieces), Some(NoChunk(s.fileChunks[f][i].digest)))
  {
    var reader := ServerReader(c, s);
    forall j | 0 <= j < i
      ensures reader.rows[f][j].digest in reader.blobs && reader.blobs[reader.rows[f][j].digest] == pieces[j]
    {
      var d := s.fileChunks[f][j].digest;
      assert Readable(GetChunk(c, s, d)) && d in s.chunks;
    }
    MissingChunkCutsFile(reader, f, pieces, i);
  }

  // --- Chunks ---

  /** A stored chunk is read back unless it is a compressed upload above the decompression limit. */
  lemma StoredChunkReadsBack(c: Config, s: Store, x: Bytes)
    requires Sound(c) && ChunksRight(c, s.chunks, s.files) && c.hash(x) in s.chunks
    ensures GetChunk(c, s, c.hash(x)) == Ok(Some(x))
            <==> |x| <= CHUNK_MAX * 2 || |c.compress(x)| >= |x|
    ensures !(|x| <= CHUNK_MAX * 2 || |c.compress(x)| >= |x|)
            ==> GetChunk(c, s, c.hash(x)) == Err(CorruptChunk(c.hash(x)))
  {
    assert StoredRight(c, s.chunks, s.files, x);
  }

  /** Every file of the store reads back as the bytes its digest names. */
  lemma StoredFileReadsBack(c: Config, s: Store, x: Bytes)
    requires Sound(c) && TablesRight(c, s) && (x != [] ==> c.hash(x) in s.fileChunks)
    ensures ReadFile(ServerReader(c, s), c.hash(x)) == Done(x)
  {
    if x != [] {
      var f := c.hash(x);
      assert s.fileChunks[f] == Refs(c, x);
      var reader := ServerReader(c, s);
      forall p | p in c.chunk(x)
        ensures c.hash(p) in reader.blobs && reader.blobs[c.hash(p)] == p
      {
        var i :| 0 <= i < |c.chunk(x)| && c.chunk(x)[i] == p;
        assert Refs(c, x)[i].digest == c.hash(p);
        assert ListsChunk(s.fileChunks[f], c.hash(p));
        StoredChunkReadsBack(c, s, p);
      }
      ChunksConcatenate(c, reader, c.chunk(x));
    }
  }

  lemma HeldTreeIsComplete(c: Config, s: Store, t: NarNode)
    requires Sound(c) && TablesRight(c, s) && Holds(c, s, t)
    ensures Complete(c, ServerReader(c, s), t)
  {
    forall x | x in Contents(t)
      ensures ReadFile(ServerReader(c, s), c.hash(x)) == Done(x)
    {
      StoredFileReadsBack(c, s, x);
    }
    DirsAreAddressed(c, t);
    forall r | r in Dirs(c, t)
      ensures r.digest in ServerReader(c, s).dirs
    {
      assert s.directories[r.digest] == c.encode(r.dir);
    }
  }

  // --- Archives ---

  type NarAnswer = Result<Option<Bytes>, ReadError>

  /** What `get_nar` makes of what was written: an archive cut short is an error. */
  function Answer(o: Output): NarAnswer {
    match o.error
    case None => Ok(Some(o.bytes))
    case Some(error) => Err(error)
  }

  /** The tree that `h` stands for exists, so that reading it is defined. */
  ghost predicate HasTree(c: Config, s: Store, h: Hash) {
    h in s.paths && !s.paths[h].root.CaEmpty? ==> exists t :: CaOf(c, t) == s.paths[h].root
  }

  /** The tree a root node stands for. */
  ghost function TreeOf(c: Config, root: CaNode): NarNode
    requires exists t :: CaOf(c, t) == root
  {
    var t :| CaOf(c, t) == root;
    t
  }

  /** `get_nar`: unknown paths answer nothing, a path without a tree is an error. */
  ghost function GetNar(c: Config, s: Store, h: Hash): NarAnswer
    requires HasTree(c, s, h)
  {
    if h !in s.paths then Ok(None)
    else
      var root := s.paths[h].root;
      Answer(NarOutput(c, ServerReader(c, s), root, if root.CaEmpty? then Symlink([]) else TreeOf(c, root)))
  }

  /** What is written for `h` according to the abstract map: nothing at all, the opening string of a
      path that has no tree yet, or the archive of the sorted tree. */
  function AbsWritten(m: Catalog, h: Hash): Option<Output> {
    if h !in m then None
    else
      match m[h]
      case Pending => Some(Output(Str(MAGIC), Some(NoVariant)))
      case Holding(t) => Some(Done(WriteNar(Canon(t))))
  }

  function AbsRead(m: Catalog, h: Hash): NarAnswer {
    match AbsWritten(m, h)
    case None => Ok(None)
    case Some(o) => Answer(o)
  }

  lemma CompleteIsWritten(c: Config, reader: Reader, t: NarNode)
    requires Complete(c, reader, t)
    ensures NarOutput(c, reader, CaOf(c, t), t) == Done(WriteNar(Canon(t)))
  {
    RenderComplete(c, reader, t);
    EncodeAppend([MAGIC], ObjTokens(Canon(t)));
    assert Encode([MAGIC]) == Str(MAGIC) + Encode([]);
  }

  lemma HeldTreeIsWritten(c: Config, s: Store, t: NarNode)
    requires Sound(c) && TablesRight(c, s) && Holds(c, s, t)
    ensures NarOutput(c, ServerReader(c, s), CaOf(c, t), t) == Done(WriteNar(Canon(t)))
  {
    HeldTreeIsComplete(c, s, t);
    CompleteIsWritten(c, ServerReader(c, s), t);
  }

  lemma InvReads(c: Config, s: Store, m: Catalog, h: Hash)
    requires Sound(c) && Inv(c, s, m)
    ensures HasTree(c, s, h) && GetNar(c, s, h) == AbsRead(m, h)
  {
    if h in m && m[h].Holding? {
      var t := m[h].tree;
      assert PathRight(c, s, h, t);
      CaOfInjective(c, TreeOf(c, s.paths[h].root), t);
      HeldTreeIsWritten(c, s, t);
    }
  }

  /** The castore refines a map from path hash to sorted tree, over every run. */
  lemma RunRefinesMap(c: Config, ops: seq<Op>, h: Hash)
    requires Sound(c)
    ensures var s := Run(c, ops);
            HasTree(c, s, h) && GetNar(c, s, h) == AbsRead(AbsRun(ops), h)
  {
    RunKeepsInv(c, ops);
    InvReads(c, Run(c, ops), AbsRun(ops), h);
  }

  /** `h` stands for the same in both maps. */
  predicate SameEntry(m: Catalog, m': Catalog, h: Hash) {
    (h in m <==> h in m') && (h in m ==> m[h] == m'[h])
  }

  lemma {:induction false} OtherEntriesStay(ops: seq<Op>, more: seq<Op>, h: Hash)
    requires forall op :: op in more ==> Spares(op, h)
    ensures SameEntry(AbsRun(ops), AbsRun(ops + more), h)
    decreases |more|
  {
    if more == [] {
      assert ops + more == ops;
    } else {
      var n := |more| - 1;
      assert (ops + more)[..|ops + more| - 1] == ops + more[..n];
      assert more[n] in more;
      OtherEntriesStay(ops, more[..n], h);
      OtherEntryStays(AbsRun(ops + more[..n]), more[n], h);
    }
  }

  lemma OtherEntryStays(m: Catalog, op: Op, h: Hash)
    requires Spares(op, h)
    ensures SameEntry(m, AbsStep(m, op), h)
  {
  }

  /** What was put last stays, whatever happens to other paths. */
  lemma LastPutStays(ops: seq<Op>, h: Hash, data: Bytes, now: nat, more: seq<Op>)
    requires ParseNar(data).Ok? && forall op :: op in more ==> Spares(op, h)
    ensures var m := AbsRun(ops + [OpPutNar(h, data, now)] + more);
            h in m && m[h] == Holding(ParseNar(data).value)
  {
    var before := ops + [OpPutNar(h, data, now)];
    assert before[..|before| - 1] == ops;
    OtherEntriesStay(before, more, h);
  }

  /** Operations on other paths, evictions and uploads included, never change what reading `h` from
      the tables and the chunk files gives. */
  lemma OtherOperationsAreInvisible(c: Config, ops: seq<Op>, more: seq<Op>, h: Hash)
    requires Sound(c)
    requires forall op :: op in more ==> Spares(op, h)
    ensures var s, s2 := Run(c, ops), Run(c, ops + more);
            HasTree(c, s, h) && HasTree(c, s2, h) && GetNar(c, s2, h) == GetNar(c, s, h)
  {
    RunRefinesMap(c, ops, h);
    RunRefinesMap(c, ops + more, h);
    OtherEntriesStay(ops, more, h);
  }

  /** A canonical, sorted archive comes back byte for byte, however much else happens meanwhile. */
  lemma CanonicalArchiveIsReturned(c: Config, ops: seq<Op>, h: Hash, t: NarNode, now: nat, more: seq<Op>)
    requires Sound(c) && Representable(t) && SortedTree(t)
    requires forall op :: op in more ==> Spares(op, h)
    ensures var s := Run(c, ops + [OpPutNar(h, WriteNar(t), now)] + more);
            HasTree(c, s, h) && GetNar(c, s, h) == Ok(Some(WriteNar(t)))
  {
    var before := ops + [OpPutNar(h, WriteNar(t), now)];
    RunRefinesMap(c, before + more, h);
    OtherEntriesStay(before, more, h);
    assert before[..|before| - 1] == ops;
    ParseInvertsWrite(t, []);
    assert WriteNar(t) + [] == WriteNar(t);
    CanonOfSorted(t);
  }
}
