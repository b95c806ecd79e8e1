/** The client's own decomposition of a tree, and its agreement with what the server stores. */
module Decomposing {
  import opened Base
  import opened NarFormat
  import opened Merkle
  import opened CasStore
  import opened CasInvariant
  import opened TreeWalks

  datatype Chunk = Chunk(digest: Digest, data: Bytes)

  datatype Decomposition = Decomposition(
    root: CaNode,
    chunks: seq<Chunk>,
    directories: seq<DirRow>,
    mappings: seq<FileMapping>)

  function ChunksOfPieces(c: Config, pieces: seq<Bytes>): (r: seq<Chunk>)
    ensures |r| == |pieces| && forall i :: 0 <= i < |r| ==> r[i] == Chunk(c.hash(pieces[i]), pieces[i])
  {
    seq(|pieces|, i requires 0 <= i < |pieces| => Chunk(c.hash(pieces[i]), pieces[i]))
  }

  function ChunksOfAll(c: Config, xs: seq<Bytes>): seq<Chunk> {
    if xs == [] then [] else ChunksOfPieces(c, c.chunk(xs[0])) + ChunksOfAll(c, xs[1..])
  }

  lemma {:induction false} ChunksOfAllAppend(c: Config, xs: seq<Bytes>, ys: seq<Bytes>)
    ensures ChunksOfAll(c, xs + ys) == ChunksOfAll(c, xs) + ChunksOfAll(c, ys)
  {
    if xs == [] {
      assert xs + ys == ys;
    } else {
      assert (xs + ys)[1..] == xs[1..] + ys;
      ChunksOfAllAppend(c, xs[1..], ys);
    }
  }

  /** Directories and mappings are listed at every occurrence, chunks at the first. */
  function Decomposed(c: Config, t: NarNode): Decomposition {
    Decomposition(CaOf(c, t), AddNew([], ChunksOfAll(c, Contents(t))), Dirs(c, t), MappingsOf(c, Contents(t)))
  }

  // --- The recursion over accumulators ---

  datatype Collected = Collected(chunks: seq<Chunk>, directories: seq<DirRow>, mappings: seq<FileMapping>)

  /** From `a` to `b` the directories `rows` and the files `xs` were collected. */
  ghost predicate Collects(c: Config, a: Collected, b: Collected, rows: seq<DirRow>, xs: seq<Bytes>) {
    && b.chunks == AddNew(a.chunks, ChunksOfAll(c, xs))
    && b.directories == a.directories + rows
    && b.mappings == a.mappings + MappingsOf(c, xs)
  }

  lemma CollectsTransitive(c: Config, a: Collected, b: Collected, d: Collected,
                           rows: seq<DirRow>, more: seq<DirRow>, xs: seq<Bytes>, ys: seq<Bytes>)
    requires Collects(c, a, b, rows, xs) && Collects(c, b, d, more, ys)
    ensures Collects(c, a, d, rows + more, xs + ys)
  {
    ChunksOfAllAppend(c, xs, ys);
    AddNewAppend(a.chunks, ChunksOfAll(c, xs), ChunksOfAll(c, ys));
    MappingsAppend(c, xs, ys);
    ConcatAssociative(a.directories, rows, more);
    ConcatAssociative(a.mappings, MappingsOf(c, xs), MappingsOf(c, ys));
  }

  lemma ConcatAssociative<T>(a: seq<T>, b: seq<T>, d: seq<T>)
    ensures a + b + d == a + (b + d)
  {
  }

  lemma CollectsNothing(c: Config, a: Collected)
    ensures Collects(c, a, a, [], [])
  {
  }

  class Decomposer {
    const cfg: Config
    var chunks: seq<Chunk>
    var chunkSeen: set<Digest>
    var directories: seq<DirRow>
    var mappings: seq<FileMapping>

    constructor (cfg: Config)
      requires Sound(cfg)
      ensures this.cfg == cfg && Valid() && chunks == [] && directories == [] && mappings == []
    {
      this.cfg := cfg;
      chunks, chunkSeen, directories, mappings := [], {}, [], [];
    }

    function Now(): Collected
      reads this
    {
      Collected(chunks, directories, mappings)
    }

    /** The seen digests are those of the chunks collected. */
    ghost predicate Valid()
      reads this
    {
      && Sound(cfg)
      && (forall ch :: ch in chunks ==> ch.digest == cfg.hash(ch.data) && ch.digest in chunkSeen)
      && (forall d :: d in chunkSeen ==> exists ch :: ch in chunks && ch.digest == d)
    }

    /** The whole-file digest comes from a hasher fed chunk by chunk. */
    method DecomposeFile(data: Bytes) returns (digest: Digest, size: nat)
      requires Valid()
      modifies this`chunks, this`chunkSeen, this`mappings
      ensures Valid() && digest == cfg.hash(data) && size == |data|
      ensures Collects(cfg, old(Now()), Now(), [], [data])
    {
      var pieces := cfg.chunk(data);
      assert Flatten(pieces) == data;
      var hashed, refs := AddPieces(pieces);
      digest := cfg.hash(hashed);
      size := |hashed|;
      OnlyEmptyFilesHaveNoChunks(cfg, data);
      if refs != [] {
        mappings := mappings + [FileMapping(digest, refs)];
      }
      assert ChunksOfAll(cfg, [data]) == ChunksOfPieces(cfg, pieces) + ChunksOfAll(cfg, []);
      assert ChunksOfAll(cfg, [data]) == ChunksOfPieces(cfg, pieces);
      OneMapping(cfg, data);
      assert old(mappings) + [] == old(mappings) && directories + [] == directories;
    }

    /** `hashed` is what the hasher has been fed. */
    method AddPieces(pieces: seq<Bytes>) returns (hashed: Bytes, refs: seq<ChunkRef>)
      requires Valid()
      modifies this`chunks, this`chunkSeen
      ensures Valid() && hashed == Flatten(pieces) && refs == RefsOf(cfg, pieces)
      ensures chunks == AddNew(old(chunks), ChunksOfPieces(cfg, pieces))
    {
      hashed, refs := [], [];
      ghost var goal := AddNew(chunks, ChunksOfPieces(cfg, pieces));
      var i := 0;
      FedNothing(cfg, pieces, chunks);
      while i < |pieces|
        invariant i <= |pieces| && Valid() && Fed(cfg, pieces, i, hashed, refs, chunks, goal)
      {
        FedStep(cfg, pieces, i, hashed, refs, chunks, goal);
        hashed := hashed + pieces[i];
        AddPiece(pieces[i]);
        refs := refs + [ChunkRef(cfg.hash(pieces[i]), |pieces[i]|)];
        i := i + 1;
      }
      FedAll(cfg, pieces, hashed, refs, chunks, goal);
    }

    method AddPiece(piece: Bytes)
      requires Valid()
      modifies this`chunks, this`chunkSeen
      ensures Valid()
      ensures var ch := Chunk(cfg.hash(piece), piece);
              chunks == if ch in old(chunks) then old(chunks) else old(chunks) + [ch]
    {
      var digest := cfg.hash(piece);
      SeenMeansListed(piece);
      if digest !in chunkSeen {
        chunkSeen := chunkSeen + {digest};
        chunks := chunks + [Chunk(digest, piece)];
      }
    }

    lemma SeenMeansListed(piece: Bytes)
      requires Valid()
      ensures cfg.hash(piece) in chunkSeen <==> Chunk(cfg.hash(piece), piece) in chunks
    {
    }

    method DecomposeNode(node: NarNode) returns (ca: CaNode)
      requires Valid()
      modifies this
      ensures Valid() && ca == CaOf(cfg, node)
      ensures Collects(cfg, old(Now()), Now(), Dirs(cfg, node), Contents(node))
      decreases node, 1
    {
      match node
      case Regular(executable, data) =>
        assert Contents(node) == [data] && Dirs(cfg, node) == [];
        var digest, size := DecomposeFile(data);
        ca := CaFile(digest, size, executable);
      case Directory(entries) =>
        var caEntries := DecomposeEntries(entries);
        var dir := CaDirectory(caEntries);
        var digest := cfg.hash(cfg.encode(dir));
        assert directories + [DirRow(digest, dir)]
            == old(directories) + (EntriesDirs(cfg, entries) + [DirRow(digest, dir)]);
        directories := directories + [DirRow(digest, dir)];
        ca := CaDir(digest, |entries|);
        assert Dirs(cfg, node) == EntriesDirs(cfg, entries) + [DirRow(digest, dir)];
        assert Collects(cfg, old(Now()), Now(), Dirs(cfg, node), Contents(node));
      case Symlink(target) =>
        assert Contents(node) == [] && Dirs(cfg, node) == [];
        CollectsNothing(cfg, Now());
        ca := CaSymlink(target);
    }

    method DecomposeEntries(entries: seq<DirEntry>) returns (caEntries: seq<CaEntry>)
      requires Valid()
      modifies this
      ensures Valid() && caEntries == CaEntries(cfg, entries)
      ensures Collects(cfg, old(Now()), Now(), EntriesDirs(cfg, entries), EntriesContents(entries))
      decreases entries, 0
    {
      caEntries := [];
      ghost var before := Now();
      ghost var rows, xs := [], [];
      var i := 0;
      CollectsNothing(cfg, before);
      assert entries[0..] == entries;
      while i < |entries|
        invariant 0 <= i <= |entries|
        invariant Valid() && Collects(cfg, before, Now(), rows, xs)
        invariant caEntries + CaEntries(cfg, entries[i..]) == CaEntries(cfg, entries)
        invariant rows + EntriesDirs(cfg, entries[i..]) == EntriesDirs(cfg, entries)
        invariant xs + EntriesContents(entries[i..]) == EntriesContents(entries)
      {
        ghost var t := entries[i].node;
        NextEntry(cfg, entries, i, rows, xs, caEntries);
        var child := DecomposeNext(entries[i].node, before, rows, xs);
        rows, xs := rows + Dirs(cfg, t), xs + Contents(t);
        caEntries := caEntries + [CaEntry(entries[i].name, child)];
        i := i + 1;
      }
      assert rows + [] == rows && xs + [] == xs;
    }

    /** One turn of the loop: `rows` and `xs` have been collected since `before`. */
    method DecomposeNext(node: NarNode, ghost before: Collected, ghost rows: seq<DirRow>, ghost xs: seq<Bytes>)
      returns (child: CaNode)
      requires Valid() && Collects(cfg, before, Now(), rows, xs)
      modifies this
      ensures Valid() && child == CaOf(cfg, node)
      ensures Collects(cfg, before, Now(), rows + Dirs(cfg, node), xs + Contents(node))
      decreases node, 2
    {
      ghost var mid := Now();
      child := DecomposeNode(node);
      CollectsTransitive(cfg, before, mid, Now(), rows, Dirs(cfg, node), xs, Contents(node));
    }
  }

  lemma NextEntry(c: Config, es: seq<DirEntry>, i: nat, rows: seq<DirRow>, xs: seq<Bytes>, done: seq<CaEntry>)
    requires i < |es|
    requires done + CaEntries(c, es[i..]) == CaEntries(c, es)
    requires rows + EntriesDirs(c, es[i..]) == EntriesDirs(c, es)
    requires xs + EntriesContents(es[i..]) == EntriesContents(es)
    ensures done + [CaEntry(es[i].name, CaOf(c, es[i].node))] + CaEntries(c, es[i + 1..]) == CaEntries(c, es)
    ensures rows + Dirs(c, es[i].node) + EntriesDirs(c, es[i + 1..]) == EntriesDirs(c, es)
    ensures xs + Contents(es[i].node) + EntriesContents(es[i + 1..]) == EntriesContents(es)
  {
    assert es[i..][1..] == es[i + 1..];
    PartsOfRest(c, es[i..], rows, EntriesDirs(c, es), xs, EntriesContents(es));
  }

  /** After `i` pieces: the hasher, the chunk list of the file and the chunks to be sent. */
  ghost predicate Fed(c: Config, pieces: seq<Bytes>, i: nat, hashed: Bytes, refs: seq<ChunkRef>,
                      chunks: seq<Chunk>, goal: seq<Chunk>)
    requires i <= |pieces|
  {
    && hashed + Flatten(pieces[i..]) == Flatten(pieces)
    && refs == RefsOf(c, pieces[..i])
    && AddNew(chunks, ChunksOfPieces(c, pieces)[i..]) == goal
  }

  lemma FedNothing(c: Config, pieces: seq<Bytes>, chunks: seq<Chunk>)
    ensures Fed(c, pieces, 0, [], [], chunks, AddNew(chunks, ChunksOfPieces(c, pieces)))
  {
  }

  lemma FedStep(c: Config, pieces: seq<Bytes>, i: nat, hashed: Bytes, refs: seq<ChunkRef>,
                chunks: seq<Chunk>, goal: seq<Chunk>)
    requires i < |pieces| && Fed(c, pieces, i, hashed, refs, chunks, goal)
    ensures var ch := Chunk(c.hash(pieces[i]), pieces[i]);
            Fed(c, pieces, i + 1, hashed + pieces[i], refs + [ChunkRef(c.hash(pieces[i]), |pieces[i]|)],
                if ch in chunks then chunks else chunks + [ch], goal)
  {
  }

  lemma FedAll(c: Config, pieces: seq<Bytes>, hashed: Bytes, refs: seq<ChunkRef>, chunks: seq<Chunk>, goal: seq<Chunk>)
    requires Fed(c, pieces, |pieces|, hashed, refs, chunks, goal)
    ensures hashed == Flatten(pieces) && refs == RefsOf(c, pieces) && chunks == goal
  {
  }

  lemma OneMapping(c: Config, data: Bytes)
    ensures MappingsOf(c, [data]) == if data == [] then [] else [FileMapping(c.hash(data), Refs(c, data))]
  {
  }

  method DecomposeNar(cfg: Config, node: NarNode) returns (r: Decomposition)
    requires Sound(cfg)
    ensures r == Decomposed(cfg, node)
  {
    var d := new Decomposer(cfg);
    var root := d.DecomposeNode(node);
    assert [] + Dirs(cfg, node) == Dirs(cfg, node);
    assert [] + MappingsOf(cfg, Contents(node)) == MappingsOf(cfg, Contents(node));
    r := Decomposition(root, d.chunks, d.directories, d.mappings);
  }

  // --- Agreement with the server ---

  /** `ch` is a piece, under its own digest, of a file among `xs`. */
  ghost predicate IsPiece(c: Config, xs: seq<Bytes>, ch: Chunk) {
    ch.digest == c.hash(ch.data) && exists x :: x in xs && ch.data in c.chunk(x)
  }

  lemma {:induction false} ChunksOfAllExact(c: Config, xs: seq<Bytes>)
    ensures forall ch :: ch in ChunksOfAll(c, xs) <==> IsPiece(c, xs, ch)
  {
    if xs != [] {
      ChunksOfAllExact(c, xs[1..]);
      forall ch
        ensures ch in ChunksOfAll(c, xs) <==> IsPiece(c, xs, ch)
      {
        var first := ChunksOfPieces(c, c.chunk(xs[0]));
        if ch.data in c.chunk(xs[0]) && ch.digest == c.hash(ch.data) {
          var i :| 0 <= i < |first| && c.chunk(xs[0])[i] == ch.data;
          assert first[i] == ch;
        }
        if ch in ChunksOfAll(c, xs[1..]) {
          var x :| x in xs[1..] && ch.data in c.chunk(x);
          assert x in xs;
        }
      }
    }
  }

  /** What the client announces is what a server that starts empty ends up storing: the same
      directories, the same file rows and the same chunks, each chunk announced once. */
  lemma DecompositionAgreesWithIngest(c: Config, t: NarNode)
    requires Sound(c)
    ensures var d, s := Decomposed(c, t), Ingest(c, EMPTY, t);
            && DirectoriesAgree(c, d, s) && MappingsAgree(d, s) && ChunksAgree(c, d, s)
  {
    EmptyIsRight(c);
    IngestAdds(c, EMPTY, t);
    var d, s := Decomposed(c, t), Ingest(c, EMPTY, t);
    IngestedDirectories(c, s, t);
    IngestedMappings(c, s, t);
    IngestedChunks(c, s, t);
  }

  ghost predicate DirectoriesAgree(c: Config, d: Decomposition, s: Store) {
    && (forall r :: r in d.directories ==> r.digest in s.directories && s.directories[r.digest] == c.encode(r.dir))
    && (forall k :: k in s.directories ==> exists r :: r in d.directories && r.digest == k)
  }

  ghost predicate MappingsAgree(d: Decomposition, s: Store) {
    && (forall m :: m in d.mappings ==> m.file in s.fileChunks && s.fileChunks[m.file] == m.chunks)
    && (forall f :: f in s.fileChunks ==> exists m :: m in d.mappings && m.file == f)
  }

  ghost predicate ChunksAgree(c: Config, d: Decomposition, s: Store) {
    && (forall ch :: ch in d.chunks ==> ch.digest == c.hash(ch.data) && StoredRight(c, s.chunks, s.files, ch.data))
    && (forall k :: k in s.chunks ==> exists ch :: ch in d.chunks && ch.digest == k)
    && (forall i, j :: 0 <= i < j < |d.chunks| ==> d.chunks[i].digest != d.chunks[j].digest)
  }

  lemma IngestedDirectories(c: Config, s: Store, t: NarNode)
    requires Sound(c) && DirsRight(c, s.directories) && s.directories.Keys == DirDigests(Dirs(c, t))
    ensures DirectoriesAgree(c, Decomposed(c, t), s)
  {
    DirsAreAddressed(c, t);
  }

  lemma IngestedMappings(c: Config, s: Store, t: NarNode)
    requires Sound(c) && RowsRight(c, s.fileChunks, s.chunks)
    requires s.fileChunks.Keys == NonEmptyDigests(c, Contents(t))
    ensures MappingsAgree(Decomposed(c, t), s)
  {
    MappingsExact(c, Contents(t));
    forall f | f in s.fileChunks
      ensures exists m :: m in MappingsOf(c, Contents(t)) && m.file == f
    {
      var x :| x in Contents(t) && x != [] && f == c.hash(x);
      var m := FileMapping(c.hash(x), Refs(c, x));
      assert Maps(c, Contents(t), m);
      assert m in MappingsOf(c, Contents(t));
    }
    forall m | m in MappingsOf(c, Contents(t))
      ensures m.file in s.fileChunks && s.fileChunks[m.file] == m.chunks
    {
      assert Maps(c, Contents(t), m);
      var x :| x in Contents(t) && x != [] && m == FileMapping(c.hash(x), Refs(c, x));
      assert c.hash(x) in NonEmptyDigests(c, Contents(t));
    }
  }

  lemma IngestedChunks(c: Config, s: Store, t: NarNode)
    requires Sound(c) && ChunksRight(c, s.chunks, s.files)
    requires s.chunks.Keys == ChunkDigests(c, Contents(t))
    ensures ChunksAgree(c, Decomposed(c, t), s)
  {
    var all := ChunksOfAll(c, Contents(t));
    var chunks := AddNew([], all);
    ChunksOfAllExact(c, Contents(t));
    AddNewExact([], all);
    forall ch | ch in chunks
      ensures ch.digest == c.hash(ch.data) && StoredRight(c, s.chunks, s.files, ch.data)
    {
      PieceIsStored(c, s, Contents(t), ch);
    }
    forall k | k in s.chunks
      ensures exists ch :: ch in chunks && ch.digest == k
    {
      var x, p :| x in Contents(t) && p in c.chunk(x) && k == c.hash(p);
      assert IsPiece(c, Contents(t), Chunk(k, p));
      assert Chunk(k, p) in chunks;
    }
    DistinctDigests(c, chunks);
  }

  lemma PieceIsStored(c: Config, s: Store, xs: seq<Bytes>, ch: Chunk)
    requires ChunksRight(c, s.chunks, s.files) && s.chunks.Keys == ChunkDigests(c, xs) && IsPiece(c, xs, ch)
    ensures ch.digest == c.hash(ch.data) && StoredRight(c, s.chunks, s.files, ch.data)
  {
    assert ch.digest in ChunkDigests(c, xs);
  }

  lemma DistinctDigests(c: Config, chunks: seq<Chunk>)
    requires Sound(c) && NoDuplicates(chunks) && forall ch :: ch in chunks ==> ch.digest == c.hash(ch.data)
    ensures forall i, j :: 0 <= i < j < |chunks| ==> chunks[i].digest != chunks[j].digest
  {
  }
}
