/** Every operation keeps the store's invariant, so that every run refines the abstract map. */
module CasInvariant {
  import opened Base
  import opened NarFormat
  import opened Merkle
  import opened CasStore

  /** Nothing that can be read from `s` reads differently in `s'`. */
  ghost predicate Extends(s: Store, s': Store) {
    && (forall d :: d in s.chunks ==> d in s'.chunks && s'.chunks[d] == s.chunks[d])
    && (forall d :: d in s.files ==> d in s'.files && s'.files[d] == s.files[d])
    && (forall f :: f in s.fileChunks ==> f in s'.fileChunks && s'.fileChunks[f] == s.fileChunks[f])
    && (forall d :: d in s.directories ==> d in s'.directories && s'.directories[d] == s.directories[d])
    && s'.paths == s.paths && s'.pathFiles == s.pathFiles
  }

  // --- Chunks ---

  lemma InsertChunkRight(c: Config, s: Store, data: Bytes)
    requires Sound(c) && TablesRight(c, s)
    ensures var s' := InsertChunk(c, s, data);
            && TablesRight(c, s') && Extends(s, s')
            && s'.fileChunks == s.fileChunks && s'.directories == s.directories
            && s'.chunks.Keys == s.chunks.Keys + {c.hash(data)}
  {
    var s' := InsertChunk(c, s, data);
    var d := c.hash(data);
    assert d in s.files ==> d in s.chunks;
    assert d in s.chunks ==> StoredRight(c, s.chunks, s.files, data);
    forall x | c.hash(x) in s'.chunks
      ensures StoredRight(c, s'.chunks, s'.files, x)
    {
      if c.hash(x) != d {
        assert StoredRight(c, s.chunks, s.files, x);
      } else {
        assert c.preimage(c.hash(x)) == data;
      }
    }
  }

  lemma HashesCons(c: Config, pieces: seq<Bytes>)
    requires pieces != []
    ensures Hashes(c, pieces) == {c.hash(pieces[0])} + Hashes(c, pieces[1..])
  {
  }

  lemma {:induction false} InsertChunksRight(c: Config, s: Store, pieces: seq<Bytes>)
    requires Sound(c) && TablesRight(c, s)
    ensures var s' := InsertChunks(c, s, pieces);
            && TablesRight(c, s') && Extends(s, s')
            && s'.fileChunks == s.fileChunks && s'.directories == s.directories
            && s'.chunks.Keys == s.chunks.Keys + Hashes(c, pieces)
    decreases |pieces|
  {
    if pieces != [] {
      InsertChunkRight(c, s, pieces[0]);
      InsertChunksRight(c, InsertChunk(c, s, pieces[0]), pieces[1..]);
      HashesCons(c, pieces);
    }
  }

  // --- Files ---

  lemma InsertRowsRight(c: Config, rows: map<Digest, seq<ChunkRef>>, chunks: map<Digest, ChunkRow>, data: Bytes)
    requires Sound(c) && RowsRight(c, rows, chunks) && Hashes(c, c.chunk(data)) <= chunks.Keys
    ensures var rows' := InsertRows(rows, c.hash(data), Refs(c, data));
            && RowsRight(c, rows', chunks)
            && (forall f :: f in rows ==> f in rows' && rows'[f] == rows[f])
            && rows'.Keys == rows.Keys + (if data == [] then {} else {c.hash(data)})
  {
    var f := c.hash(data);
    OnlyEmptyFilesHaveNoChunks(c, data);
    if f in rows {
      assert rows[c.hash(data)] == Refs(c, data) && data != [];
      InsertRowsKeepsOrAdds(rows, f, Refs(c, data));
      assert rows.Keys + {f} == rows.Keys;
    } else if data == [] {
      InsertRowsKeepsOrAdds(rows, f, Refs(c, data));
    } else {
      InsertRowsKeepsOrAdds(rows, f, Refs(c, data));
      NewRowsRight(c, rows, chunks, data);
    }
  }

  lemma InsertRowsKeepsOrAdds(rows: map<Digest, seq<ChunkRef>>, f: Digest, refs: seq<ChunkRef>)
    ensures RowsOf(rows, f) == refs ==> InsertRows(rows, f, refs) == rows
    ensures f !in rows && refs != [] ==> InsertRows(rows, f, refs) == rows[f := refs]
  {
    if f !in rows {
      assert [] + refs[0..] == refs;
    }
  }

  lemma NewRowsRight(c: Config, rows: map<Digest, seq<ChunkRef>>, chunks: map<Digest, ChunkRow>, data: Bytes)
    requires Sound(c) && RowsRight(c, rows, chunks) && Hashes(c, c.chunk(data)) <= chunks.Keys
    requires c.hash(data) !in rows && data != []
    ensures RowsRight(c, rows[c.hash(data) := Refs(c, data)], chunks)
  {
  }

  lemma InsertFileRight(c: Config, s: Store, data: Bytes)
    requires Sound(c) && TablesRight(c, s)
    ensures var s' := InsertFile(c, s, data);
            && TablesRight(c, s') && Extends(s, s')
            && s'.directories == s.directories
            && s'.chunks.Keys == s.chunks.Keys + Hashes(c, c.chunk(data))
            && s'.fileChunks.Keys == s.fileChunks.Keys + (if data == [] then {} else {c.hash(data)})
  {
    InsertChunksRight(c, s, c.chunk(data));
    var s1 := InsertChunks(c, s, c.chunk(data));
    InsertRowsRight(c, s1.fileChunks, s1.chunks, data);
  }

  // --- Trees ---

  function NonEmptyDigests(c: Config, xs: seq<Bytes>): set<Digest> {
    set x | x in xs && x != [] :: c.hash(x)
  }

  function ChunkDigests(c: Config, xs: seq<Bytes>): set<Digest> {
    set x, p | x in xs && p in c.chunk(x) :: c.hash(p)
  }

  function DirDigests(rows: seq<DirRow>): set<Digest> {
    set r | r in rows :: r.digest
  }

  /** `s'` is `s` with the files `xs` and the directories `rows` added, and nothing else. */
  ghost predicate Added(c: Config, s: Store, s': Store, xs: seq<Bytes>, rows: seq<DirRow>) {
    && Extends(s, s')
    && s'.fileChunks.Keys == s.fileChunks.Keys + NonEmptyDigests(c, xs)
    && s'.chunks.Keys == s.chunks.Keys + ChunkDigests(c, xs)
    && s'.directories.Keys == s.directories.Keys + DirDigests(rows)
  }

  lemma NonEmptyDigestsAppend(c: Config, xs: seq<Bytes>, ys: seq<Bytes>)
    ensures NonEmptyDigests(c, xs + ys) == NonEmptyDigests(c, xs) + NonEmptyDigests(c, ys)
  {
  }

  lemma ChunkDigestsAppend(c: Config, xs: seq<Bytes>, ys: seq<Bytes>)
    ensures ChunkDigests(c, xs + ys) == ChunkDigests(c, xs) + ChunkDigests(c, ys)
  {
  }

  lemma DirDigestsAppend(rows: seq<DirRow>, more: seq<DirRow>)
    ensures DirDigests(rows + more) == DirDigests(rows) + DirDigests(more)
  {
  }

  lemma AddedTransitive(c: Config, s: Store, s1: Store, s2: Store, xs: seq<Bytes>, ys: seq<Bytes>,
                        rows: seq<DirRow>, more: seq<DirRow>)
    requires Added(c, s, s1, xs, rows) && Added(c, s1, s2, ys, more)
    ensures Added(c, s, s2, xs + ys, rows + more)
  {
    ExtendsTransitive(s, s1, s2);
    NonEmptyDigestsAppend(c, xs, ys);
    ChunkDigestsAppend(c, xs, ys);
    DirDigestsAppend(rows, more);
    UnionAssociative(s.fileChunks.Keys, NonEmptyDigests(c, xs), NonEmptyDigests(c, ys));
    UnionAssociative(s.chunks.Keys, ChunkDigests(c, xs), ChunkDigests(c, ys));
    UnionAssociative(s.directories.Keys, DirDigests(rows), DirDigests(more));
  }

  lemma UnionAssociative(a: set<Digest>, b: set<Digest>, d: set<Digest>)
    ensures (a + b) + d == a + (b + d)
  {
  }

  lemma ExtendsTransitive(s: Store, s1: Store, s2: Store)
    requires Extends(s, s1) && Extends(s1, s2)
    ensures Extends(s, s2)
  {
  }

  lemma DigestsOfOneFile(c: Config, data: Bytes)
    ensures ChunkDigests(c, [data]) == Hashes(c, c.chunk(data))
    ensures NonEmptyDigests(c, [data]) == if data == [] then {} else {c.hash(data)}
  {
  }

  lemma FileAdded(c: Config, s: Store, data: Bytes)
    requires Sound(c) && TablesRight(c, s)
    ensures TablesRight(c, InsertFile(c, s, data)) && Added(c, s, InsertFile(c, s, data), [data], [])
  {
    InsertFileRight(c, s, data);
    DigestsOfOneFile(c, data);
    assert DirDigests([]) == {};
  }

  lemma InsertDirRight(c: Config, s: Store, dir: CaDirectory)
    requires Sound(c) && DirsRight(c, s.directories)
    ensures DirsRight(c, InsertDir(c, s, dir).directories)
  {
  }

  lemma InsertDirExtends(c: Config, s: Store, dir: CaDirectory)
    ensures Extends(s, InsertDir(c, s, dir))
    ensures InsertDir(c, s, dir).directories.Keys == s.directories.Keys + {c.hash(c.encode(dir))}
  {
  }

  lemma DirAdded(c: Config, s: Store, es: seq<DirEntry>)
    requires Sound(c) && TablesRight(c, s)
    ensures var s' := InsertDir(c, s, DirOf(c, es));
            TablesRight(c, s') && Added(c, s, s', [], [DirRowOf(c, es)])
  {
    InsertDirRight(c, s, DirOf(c, es));
    InsertDirExtends(c, s, DirOf(c, es));
    NoDigests(c);
    OneDigest(DirRowOf(c, es));
  }

  lemma OneDigest(row: DirRow)
    ensures DirDigests([row]) == {row.digest}
  {
    assert row in [row];
  }

  lemma NoDigests(c: Config)
    ensures NonEmptyDigests(c, []) == {} && ChunkDigests(c, []) == {} && DirDigests([]) == {}
  {
  }

  lemma NothingAdded(c: Config, s: Store)
    ensures Added(c, s, s, [], [])
  {
  }

  /** Ingesting a tree adds exactly its chunks, its file rows and its directories. */
  lemma {:induction false} IngestAdds(c: Config, s: Store, t: NarNode)
    requires Sound(c) && TablesRight(c, s)
    ensures TablesRight(c, Ingest(c, s, t)) && Added(c, s, Ingest(c, s, t), Contents(t), Dirs(c, t))
    decreases t, 1
  {
    match t
    case Regular(_, data) => FileAdded(c, s, data);
    case Directory(entries) =>
      var s1 := IngestEntries(c, s, entries);
      IngestEntriesAdds(c, s, entries);
      DirAdded(c, s1, entries);
      AddedTransitive(c, s, s1, Ingest(c, s, t), EntriesContents(entries), [],
                      EntriesDirs(c, entries), [DirRowOf(c, entries)]);
      assert EntriesContents(entries) + [] == EntriesContents(entries);
    case Symlink(_) => NothingAdded(c, s);
  }

  lemma {:induction false} IngestEntriesAdds(c: Config, s: Store, es: seq<DirEntry>)
    requires Sound(c) && TablesRight(c, s)
    ensures var s' := IngestEntries(c, s, es);
            TablesRight(c, s') && Added(c, s, s', EntriesContents(es), EntriesDirs(c, es))
    decreases es, 0
  {
    if es == [] {
      NothingAdded(c, s);
    } else {
      var s1 := Ingest(c, s, es[0].node);
      IngestAdds(c, s, es[0].node);
      IngestEntriesAdds(c, s1, es[1..]);
      AddedTransitive(c, s, s1, IngestEntries(c, s, es), Contents(es[0].node), EntriesContents(es[1..]),
                      Dirs(c, es[0].node), EntriesDirs(c, es[1..]));
    }
  }

  lemma AddedHolds(c: Config, s: Store, s': Store, t: NarNode)
    requires Added(c, s, s', Contents(t), Dirs(c, t))
    ensures Holds(c, s', t)
  {
  }

  // --- The public operations keep the invariant ---

  lemma EmptyIsRight(c: Config)
    ensures Inv(c, EMPTY, map[]) && NoGarbage(EMPTY)
  {
  }

  lemma PathsStayRight(c: Config, s: Store, s': Store, m: Catalog)
    requires Inv(c, s, m) && Extends(s, s') && TablesRight(c, s')
    ensures Inv(c, s', m)
  {
    forall h | h in m && m[h].Holding?
      ensures PathRight(c, s', h, m[h].tree)
    {
      assert PathRight(c, s, h, m[h].tree);
      HoldsStays(c, s, s', m[h].tree);
    }
  }

  lemma HoldsStays(c: Config, s: Store, s': Store, t: NarNode)
    requires Holds(c, s, t)
    requires forall f :: f in s.fileChunks ==> f in s'.fileChunks
    requires forall d :: d in s.directories ==> d in s'.directories
    ensures Holds(c, s', t)
  {
  }

  lemma StoreChunkKeepsInv(c: Config, s: Store, m: Catalog, data: Bytes)
    requires Sound(c) && Inv(c, s, m)
    ensures Inv(c, InsertChunk(c, s, data), m)
  {
    InsertChunkRight(c, s, data);
    PathsStayRight(c, s, InsertChunk(c, s, data), m);
  }

  lemma PutTreeKeepsInv(c: Config, s: Store, m: Catalog, h: Hash, t: NarNode, now: nat)
    requires Sound(c) && Inv(c, s, m)
    ensures Inv(c, PutTree(c, s, h, t, now), m[h := Holding(t)])
  {
    var s1 := Ingest(c, s, t);
    IngestAdds(c, s, t);
    AddedHolds(c, s, s1, t);
    PathsStayRight(c, s, s1, m);
    RecordPathKeepsInv(c, s1, m, h, t, now);
  }

  /** The second half of `PutTree`: the rows of `path_files` and `cas_paths`. */
  lemma RecordPathKeepsInv(c: Config, s: Store, m: Catalog, h: Hash, t: NarNode, now: nat)
    requires Sound(c) && Inv(c, s, m) && Holds(c, s, t)
    ensures Inv(c, s.(pathFiles := s.pathFiles + (set f | f in FileDigests(c, t) :: (h, f)),
                      paths := s.paths[h := PathRow(CaOf(c, t), now)]),
                m[h := Holding(t)])
  {
    RecordPathKeepsPaths(c, s, m, h, t, now);
  }

  lemma RecordPathKeepsPaths(c: Config, s: Store, m: Catalog, h: Hash, t: NarNode, now: nat)
    requires Sound(c) && PathsRight(c, s, m) && Holds(c, s, t)
    ensures PathsRight(c, s.(pathFiles := s.pathFiles + (set f | f in FileDigests(c, t) :: (h, f)),
                             paths := s.paths[h := PathRow(CaOf(c, t), now)]),
                       m[h := Holding(t)])
  {
    var s2 := s.(pathFiles := s.pathFiles + (set f | f in FileDigests(c, t) :: (h, f)),
                 paths := s.paths[h := PathRow(CaOf(c, t), now)]);
    PathFilesAreRows(c, s, m, h, t, s2.pathFiles);
    NewPathIsRight(c, s, s2, h, t);
    OtherPathsStay(c, s, s2, m, h);
    PathsTogether(c, s, s2, m, h, t);
  }

  lemma PathsTogether(c: Config, s: Store, s2: Store, m: Catalog, h: Hash, t: NarNode)
    requires PathsRight(c, s, m) && PathRight(c, s2, h, t)
    requires forall k :: k in m && k != h && m[k].Holding? ==> PathRight(c, s2, k, m[k].tree)
    requires s2.paths.Keys == s.paths.Keys + {h}
    requires forall k :: k in s.paths && k != h ==> k in s2.paths && s2.paths[k] == s.paths[k]
    requires forall p :: p in s2.pathFiles ==> p in s.pathFiles || p.0 == h
    requires forall k, x :: (k, c.hash(x)) in s2.pathFiles && x != [] ==> c.hash(x) in s2.fileChunks
    ensures PathsRight(c, s2, m[h := Holding(t)])
  {
  }

  lemma NewPathIsRight(c: Config, s: Store, s2: Store, h: Hash, t: NarNode)
    requires Holds(c, s, t) && s2.fileChunks == s.fileChunks && s2.directories == s.directories
    requires h in s2.paths && s2.paths[h].root == CaOf(c, t)
    requires s2.pathFiles == s.pathFiles + (set f | f in FileDigests(c, t) :: (h, f))
    ensures PathRight(c, s2, h, t)
  {
  }

  lemma OtherPathsStay(c: Config, s: Store, s2: Store, m: Catalog, h: Hash)
    requires PathsRight(c, s, m)
    requires s2.fileChunks == s.fileChunks && s2.directories == s.directories && s.pathFiles <= s2.pathFiles
    requires forall k :: k in s.paths && k != h ==> k in s2.paths && s2.paths[k] == s.paths[k]
    ensures forall k :: k in m && k != h && m[k].Holding? ==> PathRight(c, s2, k, m[k].tree)
  {
  }

  /** Once `t` is ingested, the files recorded for its path have rows. */
  lemma PathFilesAreRows(c: Config, s: Store, m: Catalog, h: Hash, t: NarNode, all: set<(Hash, Digest)>)
    requires Sound(c) && PathsRight(c, s, m) && Holds(c, s, t)
    requires all == s.pathFiles + (set f | f in FileDigests(c, t) :: (h, f))
    ensures forall k, x :: (k, c.hash(x)) in all && x != [] ==> c.hash(x) in s.fileChunks
  {
    forall k, x | (k, c.hash(x)) in all && x != []
      ensures c.hash(x) in s.fileChunks
    {
      if (k, c.hash(x)) !in s.pathFiles {
        var y :| y in Contents(t) && c.hash(y) == c.hash(x);
        assert c.preimage(c.hash(y)) == y && c.preimage(c.hash(x)) == x;
      }
    }
  }

  lemma PutNarinfoKeepsInv(c: Config, s: Store, m: Catalog, h: Hash, now: nat)
    requires Inv(c, s, m)
    ensures Inv(c, PutNarinfo(s, h, now), if h in m then m else m[h := Pending])
  {
    var s', m' := PutNarinfo(s, h, now), if h in m then m else m[h := Pending];
    forall k | k in m' && m'[k].Holding?
      ensures PathRight(c, s', k, m'[k].tree)
    {
      assert PathRight(c, s, k, m[k].tree);
      HoldsStays(c, s, s', m'[k].tree);
    }
  }

  lemma UpdateAccessKeepsInv(c: Config, s: Store, m: Catalog, hashes: seq<Hash>, now: nat)
    requires Inv(c, s, m)
    ensures Inv(c, UpdateAccess(s, hashes, now), m)
  {
    var s' := UpdateAccess(s, hashes, now);
    forall k | k in m && m[k].Holding?
      ensures PathRight(c, s', k, m[k].tree)
    {
      assert PathRight(c, s, k, m[k].tree);
      HoldsStays(c, s, s', m[k].tree);
    }
  }
}
