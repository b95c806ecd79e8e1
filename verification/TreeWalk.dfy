/** The negotiation walk: one pass over shared trees with visited sets, proved equal to walking
    every tree in full and then keeping the first occurrence of everything. */
module TreeWalks {
  import opened Base
  import opened NarFormat
  import opened Merkle
  import opened Streaming
  import opened CasStore
  import opened DirSources
  import opened Castores

  datatype FileMapping = FileMapping(file: Digest, chunks: seq<ChunkRef>)

  // --- The naive answer ---

  /** The chunk lists of the non-empty files among `xs`. */
  function MappingsOf(c: Config, xs: seq<Bytes>): seq<FileMapping> {
    if xs == [] then []
    else (if xs[0] == [] then [] else [FileMapping(c.hash(xs[0]), Refs(c, xs[0]))]) + MappingsOf(c, xs[1..])
  }

  /** The chunks in `refs` that the client does not claim to have. */
  function Wanted(have: Digest -> bool, refs: seq<ChunkRef>): seq<ChunkRef> {
    if refs == [] then []
    else (if have(refs[0].digest) then [] else [refs[0]]) + Wanted(have, refs[1..])
  }

  function MissingOf(c: Config, have: Digest -> bool, xs: seq<Bytes>): seq<ChunkRef> {
    if xs == [] then [] else Wanted(have, Refs(c, xs[0])) + MissingOf(c, have, xs[1..])
  }

  lemma {:induction false} MappingsAppend(c: Config, xs: seq<Bytes>, ys: seq<Bytes>)
    ensures MappingsOf(c, xs + ys) == MappingsOf(c, xs) + MappingsOf(c, ys)
  {
    if xs == [] {
      assert xs + ys == ys;
    } else {
      assert (xs + ys)[1..] == xs[1..] + ys;
      MappingsAppend(c, xs[1..], ys);
    }
  }

  lemma {:induction false} MissingAppend(c: Config, have: Digest -> bool, xs: seq<Bytes>, ys: seq<Bytes>)
    ensures MissingOf(c, have, xs + ys) == MissingOf(c, have, xs) + MissingOf(c, have, ys)
  {
    if xs == [] {
      assert xs + ys == ys;
    } else {
      assert (xs + ys)[1..] == xs[1..] + ys;
      MissingAppend(c, have, xs[1..], ys);
    }
  }

  lemma {:induction false} WantedExact(have: Digest -> bool, refs: seq<ChunkRef>)
    ensures forall r :: r in Wanted(have, refs) <==> r in refs && !have(r.digest)
  {
    if refs != [] {
      WantedExact(have, refs[1..]);
    }
  }

  /** `m` is the chunk list of a non-empty file among `xs`. */
  ghost predicate Maps(c: Config, xs: seq<Bytes>, m: FileMapping) {
    exists x :: x in xs && x != [] && m == FileMapping(c.hash(x), Refs(c, x))
  }

  /** `r` is a chunk of a file among `xs`. */
  ghost predicate Needs(c: Config, xs: seq<Bytes>, r: ChunkRef) {
    exists x :: x in xs && r in Refs(c, x)
  }

  lemma {:induction false} MappingsExact(c: Config, xs: seq<Bytes>)
    ensures forall m :: m in MappingsOf(c, xs) <==> Maps(c, xs, m)
  {
    if xs != [] {
      MappingsExact(c, xs[1..]);
      forall m
        ensures m in MappingsOf(c, xs) <==> Maps(c, xs, m)
      {
        if m in MappingsOf(c, xs[1..]) {
          var x :| x in xs[1..] && x != [] && m == FileMapping(c.hash(x), Refs(c, x));
          assert x in xs;
        }
      }
    }
  }

  lemma {:induction false} MissingExact(c: Config, have: Digest -> bool, xs: seq<Bytes>)
    ensures forall r :: r in MissingOf(c, have, xs) <==> !have(r.digest) && Needs(c, xs, r)
  {
    if xs != [] {
      WantedExact(have, Refs(c, xs[0]));
      MissingExact(c, have, xs[1..]);
      forall r
        ensures r in MissingOf(c, have, xs) <==> !have(r.digest) && Needs(c, xs, r)
      {
        if r in MissingOf(c, have, xs[1..]) {
          var x :| x in xs[1..] && r in Refs(c, x);
          assert x in xs;
        }
      }
    }
  }

  // --- The accumulators ---

  datatype Acc = Acc(
    chunkSeen: set<Digest>,
    missing: seq<ChunkRef>,
    dirSeen: set<Digest>,
    directories: seq<DirRow>,
    fileSeen: set<Digest>,
    mappings: seq<FileMapping>)

  const NOTHING: Acc := Acc({}, [], {}, [], {}, [])

  /** The lists of `b` are those of `a` with the given items added at first occurrence. */
  ghost predicate Adds(c: Config, have: Digest -> bool, a: Acc, b: Acc, rows: seq<DirRow>, xs: seq<Bytes>) {
    && b.directories == AddNew(a.directories, rows)
    && b.mappings == AddNew(a.mappings, MappingsOf(c, xs))
    && b.missing == AddNew(a.missing, MissingOf(c, have, xs))
    && b.fileSeen == a.fileSeen + Hashes(c, xs)
  }

  lemma AddsTransitive(c: Config, have: Digest -> bool, a: Acc, b: Acc, d: Acc,
                       rows: seq<DirRow>, more: seq<DirRow>, xs: seq<Bytes>, ys: seq<Bytes>)
    requires Adds(c, have, a, b, rows, xs) && Adds(c, have, b, d, more, ys)
    ensures Adds(c, have, a, d, rows + more, xs + ys)
  {
    AddNewAppend(a.directories, rows, more);
    MappingsAppend(c, xs, ys);
    AddNewAppend(a.mappings, MappingsOf(c, xs), MappingsOf(c, ys));
    MissingAppend(c, have, xs, ys);
    AddNewAppend(a.missing, MissingOf(c, have, xs), MissingOf(c, have, ys));
    HashesAppend(c, xs, ys);
  }

  /** Everything below a directory with entries `es` has been collected. */
  ghost predicate Covered(c: Config, a: Acc, es: seq<DirEntry>) {
    && (forall r :: r in EntriesDirs(c, es) ==> r in a.directories)
    && (forall x :: x in EntriesContents(es) ==> c.hash(x) in a.fileSeen)
  }

  /** A visited file has its mapping and has asked for its chunks. */
  ghost predicate FileCovered(c: Config, have: Digest -> bool, a: Acc, x: Bytes) {
    && (x != [] ==> FileMapping(c.hash(x), Refs(c, x)) in a.mappings)
    && (forall r :: r in Refs(c, x) ==> have(r.digest) || r in a.missing)
  }

  ghost predicate FilesRight(c: Config, have: Digest -> bool, a: Acc) {
    && (forall x :: c.hash(x) in a.fileSeen ==> FileCovered(c, have, a, x))
    && (forall m :: m in a.mappings ==> m.file in a.fileSeen)
    && ChunksSeen(c, a.missing, a.chunkSeen)
  }

  /** The requested chunks are those marked as seen; the digest determines the size. */
  ghost predicate ChunksSeen(c: Config, missing: seq<ChunkRef>, seen: set<Digest>) {
    && (forall r :: r in missing ==> r.digest in seen && r.size == |c.preimage(r.digest)|)
    && (forall d :: d in seen ==> exists r :: r in missing && r.digest == d)
  }

  /** `done[i]` are the entries of the i-th emitted directory; `open` are the directories being
      walked: seen, but not emitted yet. */
  ghost predicate DirsSeen(c: Config, a: Acc, open: set<Digest>, done: seq<seq<DirEntry>>) {
    && |done| == |a.directories|
    && (forall i :: 0 <= i < |done| ==> a.directories[i] == DirRowOf(c, done[i]) && Covered(c, a, done[i]))
    && (forall r :: r in a.directories ==> r.digest in a.dirSeen && r.digest !in open)
    && (forall d :: d in a.dirSeen ==> d in open || exists r :: r in a.directories && r.digest == d)
    && open <= a.dirSeen
  }

  // --- A file or directory that was seen before adds nothing ---

  lemma SeenFilesAddNothing(c: Config, have: Digest -> bool, a: Acc, xs: seq<Bytes>)
    requires FilesRight(c, have, a) && forall x :: x in xs ==> c.hash(x) in a.fileSeen
    ensures Adds(c, have, a, a, [], xs)
  {
    MappingsExact(c, xs);
    forall m | m in MappingsOf(c, xs)
      ensures m in a.mappings
    {
      var x :| x in xs && x != [] && m == FileMapping(c.hash(x), Refs(c, x));
      assert FileCovered(c, have, a, x);
    }
    AddNewNothing(a.mappings, MappingsOf(c, xs));
    MissingExact(c, have, xs);
    forall r | r in MissingOf(c, have, xs)
      ensures r in a.missing
    {
      var x :| x in xs && r in Refs(c, x);
      assert FileCovered(c, have, a, x);
    }
    AddNewNothing(a.missing, MissingOf(c, have, xs));
    assert a.fileSeen + Hashes(c, xs) == a.fileSeen;
  }

  lemma SeenDirAddsNothing(c: Config, have: Digest -> bool, a: Acc, open: set<Digest>,
                           done: seq<seq<DirEntry>>, es: seq<DirEntry>)
    requires Sound(c) && FilesRight(c, have, a) && DirsSeen(c, a, open, done)
    requires DirDigest(c, es) in a.dirSeen && DirDigest(c, es) !in open
    ensures Adds(c, have, a, a, EntriesDirs(c, es) + [DirRowOf(c, es)], EntriesContents(es))
    ensures Covered(c, a, es) && DirRowOf(c, es) in a.directories
  {
    var r :| r in a.directories && r.digest == DirDigest(c, es);
    var i :| 0 <= i < |done| && a.directories[i] == r;
    SameDigestSameDir(c, DirOf(c, done[i]), DirOf(c, es));
    CaEntriesInjective(c, done[i], es);
    SeenFilesAddNothing(c, have, a, EntriesContents(es));
    AddNewNothing(a.directories, EntriesDirs(c, es) + [DirRowOf(c, es)]);
  }

  // --- Nesting ---

  function Weight(t: NarNode): nat
    decreases t, 1
  {
    if t.Directory? then 1 + EntriesWeight(t.entries) else 0
  }

  function EntriesWeight(es: seq<DirEntry>): nat
    decreases es, 0
  {
    if es == [] then 0 else Weight(es[0].node) + EntriesWeight(es[1..])
  }

  lemma {:induction false} DirsAreSmaller(c: Config, t: NarNode, r: DirRow)
    requires r in Dirs(c, t)
    ensures exists fs :: r == DirRowOf(c, fs) && EntriesWeight(fs) < Weight(t)
    decreases t, 1
  {
    if r in EntriesDirs(c, t.entries) {
      EntriesDirsAreSmaller(c, t.entries, r);
    } else {
      assert r == DirRowOf(c, t.entries);
    }
  }

  lemma {:induction false} EntriesDirsAreSmaller(c: Config, es: seq<DirEntry>, r: DirRow)
    requires r in EntriesDirs(c, es)
    ensures exists fs :: r == DirRowOf(c, fs) && EntriesWeight(fs) < EntriesWeight(es)
    decreases es, 0
  {
    if r in Dirs(c, es[0].node) {
      DirsAreSmaller(c, es[0].node, r);
    } else {
      EntriesDirsAreSmaller(c, es[1..], r);
    }
  }

  /** No directory contains itself. */
  lemma DirIsNotBelowItself(c: Config, es: seq<DirEntry>)
    requires Sound(c)
    ensures forall r :: r in EntriesDirs(c, es) ==> r.digest != DirDigest(c, es)
  {
    forall r | r in EntriesDirs(c, es)
      ensures r.digest != DirDigest(c, es)
    {
      EntriesDirsAreSmaller(c, es, r);
      var fs :| r == DirRowOf(c, fs) && EntriesWeight(fs) < EntriesWeight(es);
      if r.digest == DirDigest(c, es) {
        SameDigestSameDir(c, DirOf(c, fs), DirOf(c, es));
        CaEntriesInjective(c, fs, es);
      }
    }
  }

  // --- Opening and closing a directory ---

  lemma OpenDir(c: Config, a: Acc, open: set<Digest>, done: seq<seq<DirEntry>>, d: Digest)
    requires DirsSeen(c, a, open, done) && d !in a.dirSeen
    ensures DirsSeen(c, a.(dirSeen := a.dirSeen + {d}), open + {d}, done)
  {
  }

  /** Emitting the directory after its children. */
  lemma CloseDir(c: Config, have: Digest -> bool, a: Acc, b: Acc, open: set<Digest>,
                 done: seq<seq<DirEntry>>, es: seq<DirEntry>)
    requires DirDigest(c, es) !in open && DirsSeen(c, b, open + {DirDigest(c, es)}, done)
    requires Adds(c, have, a, b, EntriesDirs(c, es), EntriesContents(es)) && Covered(c, b, es)
    ensures var e := b.(directories := b.directories + [DirRowOf(c, es)]);
            && DirsSeen(c, e, open, done + [es])
            && Adds(c, have, a, e, EntriesDirs(c, es) + [DirRowOf(c, es)], EntriesContents(es))
  {
    var row := DirRowOf(c, es);
    assert row !in b.directories;
    AddNewAppend(a.directories, EntriesDirs(c, es), [row]);
    assert AddNew(b.directories, [row]) == AddNew(b.directories + [row], []);
    ClosedDirsSeen(c, b, open, done, es);
  }

  lemma ClosedDirsSeen(c: Config, b: Acc, open: set<Digest>, done: seq<seq<DirEntry>>, es: seq<DirEntry>)
    requires DirDigest(c, es) !in open && DirsSeen(c, b, open + {DirDigest(c, es)}, done) && Covered(c, b, es)
    ensures DirsSeen(c, b.(directories := b.directories + [DirRowOf(c, es)]), open, done + [es])
  {
    var row := DirRowOf(c, es);
    var e := b.(directories := b.directories + [row]);
    forall i | 0 <= i < |done + [es]|
      ensures e.directories[i] == DirRowOf(c, (done + [es])[i]) && Covered(c, e, (done + [es])[i])
    {
      if i < |done| {
        assert Covered(c, b, done[i]);
      }
    }
    forall d | d in e.dirSeen
      ensures d in open || exists r :: r in e.directories && r.digest == d
    {
      if d == row.digest {
        assert row in e.directories;
      } else if d !in open {
        var r :| r in b.directories && r.digest == d;
        assert r in e.directories;
      }
    }
  }

  // --- One file ---

  /** What visiting a new file changes. */
  ghost predicate FileVisited(c: Config, have: Digest -> bool, a: Acc, b: Acc, x: Bytes) {
    && b.directories == a.directories && b.dirSeen == a.dirSeen
    && b.fileSeen == a.fileSeen + {c.hash(x)}
    && b.missing == AddNew(a.missing, Wanted(have, Refs(c, x)))
    && ChunksSeen(c, b.missing, b.chunkSeen)
    && b.mappings == a.mappings + (if x == [] then [] else [FileMapping(c.hash(x), Refs(c, x))])
  }

  lemma NewFileRight(c: Config, have: Digest -> bool, a: Acc, b: Acc, x: Bytes)
    requires Sound(c) && FilesRight(c, have, a) && FileVisited(c, have, a, b, x)
    ensures FilesRight(c, have, b)
  {
    WantedExact(have, Refs(c, x));
    AddNewExact(a.missing, Wanted(have, Refs(c, x)));
    forall y | c.hash(y) in b.fileSeen
      ensures FileCovered(c, have, b, y)
    {
      assert c.preimage(c.hash(y)) == y && c.preimage(c.hash(x)) == x;
      if y != x {
        assert FileCovered(c, have, a, y);
      }
    }
  }

  lemma NewFileAdds(c: Config, have: Digest -> bool, a: Acc, b: Acc, x: Bytes)
    requires FilesRight(c, have, a) && c.hash(x) !in a.fileSeen && FileVisited(c, have, a, b, x)
    ensures Adds(c, have, a, b, [], [x])
  {
    var mapping := FileMapping(c.hash(x), Refs(c, x));
    assert mapping !in a.mappings;
    assert MappingsOf(c, [x]) == (if x == [] then [] else [mapping]) + MappingsOf(c, []);
    if x != [] {
      assert MappingsOf(c, [x]) == [mapping];
      assert AddNew(a.mappings, [mapping]) == AddNew(a.mappings + [mapping], []);
    }
    assert MissingOf(c, have, [x]) == Wanted(have, Refs(c, x)) + MissingOf(c, have, []);
    assert MissingOf(c, have, [x]) == Wanted(have, Refs(c, x));
    assert Hashes(c, [x]) == {c.hash(x)};
  }

  lemma SeenDirsStay(c: Config, a: Acc, b: Acc, open: set<Digest>, done: seq<seq<DirEntry>>)
    requires DirsSeen(c, a, open, done)
    requires b.directories == a.directories && b.dirSeen == a.dirSeen && a.fileSeen <= b.fileSeen
    ensures DirsSeen(c, b, open, done)
  {
  }

  /** A chunk of `x` is marked as seen exactly if it has been requested. */
  lemma ChunkSeenMeansRequested(c: Config, missing: seq<ChunkRef>, seen: set<Digest>, x: Bytes, i: nat)
    requires Sound(c) && ChunksSeen(c, missing, seen) && i < |Refs(c, x)|
    ensures Refs(c, x)[i].digest in seen <==> Refs(c, x)[i] in missing
    ensures ChunksSeen(c, missing + [Refs(c, x)[i]], seen + {Refs(c, x)[i].digest})
  {
  }

  lemma AddsNothing(c: Config, have: Digest -> bool, a: Acc)
    ensures Adds(c, have, a, a, [], [])
  {
  }

  lemma AddsCovers(c: Config, have: Digest -> bool, a: Acc, b: Acc, es: seq<DirEntry>)
    requires Adds(c, have, a, b, EntriesDirs(c, es), EntriesContents(es))
    ensures Covered(c, b, es)
  {
    AddNewExact(a.directories, EntriesDirs(c, es));
  }

  // --- The walk itself ---

  /** The reader can answer everything the walk of `t` asks for. */
  ghost predicate Answers(c: Config, reader: Reader, rows: seq<DirRow>, xs: seq<Bytes>) {
    && (forall r :: r in rows ==> r.digest in reader.dirs)
    && (forall x :: x in xs ==> RowsOf(reader.rows, c.hash(x)) == Refs(c, x))
  }

  class TreeWalk {
    const reader: Reader
    const src: DirSource
    const have: Digest -> bool
    var chunkSeen: set<Digest>
    var missing: seq<ChunkRef>
    var dirSeen: set<Digest>
    var directories: seq<DirRow>
    var fileSeen: set<Digest>
    var mappings: seq<FileMapping>
    ghost const cfg: Config
    ghost var done: seq<seq<DirEntry>>

    constructor (reader: Reader, src: DirSource, have: Digest -> bool, ghost cfg: Config)
      requires Sound(cfg) && Genuine(cfg, reader)
      ensures this.reader == reader && this.src == src && this.have == have && this.cfg == cfg
      ensures Now() == NOTHING && Right({})
    {
      this.reader, this.src, this.have, this.cfg := reader, src, have, cfg;
      chunkSeen, dirSeen, fileSeen := {}, {}, {};
      missing, directories, mappings := [], [], [];
      done := [];
    }

    function Now(): Acc
      reads this
    {
      Acc(chunkSeen, missing, dirSeen, directories, fileSeen, mappings)
    }

    ghost predicate Right(open: set<Digest>)
      reads this
    {
      && Sound(cfg) && Genuine(cfg, reader)
      && FilesRight(cfg, have, Now()) && DirsSeen(cfg, Now(), open, done)
    }

    method WalkCasNode(node: CaNode, ghost t: NarNode, ghost open: set<Digest>)
      requires Right(open) && node == CaOf(cfg, t) && Answers(cfg, reader, Dirs(cfg, t), Contents(t))
      requires forall r :: r in Dirs(cfg, t) ==> r.digest !in open
      requires src.Valid() && src.Backs(reader)
      modifies this, src.Footprint()
      ensures src.Valid()
      ensures Right(open)
      ensures Adds(cfg, have, old(Now()), Now(), Dirs(cfg, t), Contents(t))
      decreases t, 1
    {
      match node
      case CaFile(digest, _, _) =>
        assert Contents(t) == [t.data];
        VisitFile(digest, t.data, open);
      case CaDir(digest, _) =>
        VisitDir(digest, t.entries, open);
      case CaSymlink(_) =>
        AddsNothing(cfg, have, Now());
      case CaEmpty =>
    }

    method VisitFile(file: Digest, ghost x: Bytes, ghost open: set<Digest>)
      requires Right(open) && file == cfg.hash(x) && Answers(cfg, reader, [], [x])
      modifies this
      ensures Right(open) && Adds(cfg, have, old(Now()), Now(), [], [x])
    {
      if file in fileSeen {
        SeenFilesAddNothing(cfg, have, Now(), [x]);
        return;
      }
      ghost var before := Now();
      VisitNewFile(file, x);
      NewFileRight(cfg, have, before, Now(), x);
      NewFileAdds(cfg, have, before, Now(), x);
      SeenDirsStay(cfg, before, Now(), open, done);
    }

    method VisitNewFile(file: Digest, ghost x: Bytes)
      requires Sound(cfg) && ChunksSeen(cfg, missing, chunkSeen)
      requires file == cfg.hash(x) && RowsOf(reader.rows, file) == Refs(cfg, x)
      modifies this`fileSeen, this`missing, this`chunkSeen, this`mappings
      ensures FileVisited(cfg, have, old(Now()), Now(), x)
    {
      fileSeen := fileSeen + {file};
      var chunks := RowsOf(reader.rows, file);
      RequestChunks(chunks, x);
      OnlyEmptyFilesHaveNoChunks(cfg, x);
      if chunks != [] {
        mappings := mappings + [FileMapping(file, chunks)];
      } else {
        assert mappings + [] == mappings;
      }
    }

    method RequestChunks(chunks: seq<ChunkRef>, ghost x: Bytes)
      requires Sound(cfg) && chunks == Refs(cfg, x)
      requires ChunksSeen(cfg, missing, chunkSeen)
      modifies this`missing, this`chunkSeen
      ensures missing == AddNew(old(missing), Wanted(have, chunks))
      ensures ChunksSeen(cfg, missing, chunkSeen)
    {
      var i := 0;
      ghost var goal := AddNew(missing, Wanted(have, chunks));
      assert chunks[0..] == chunks;
      while i < |chunks|
        invariant 0 <= i <= |chunks|
        invariant AddNew(missing, Wanted(have, chunks[i..])) == goal
        invariant ChunksSeen(cfg, missing, chunkSeen)
      {
        assert chunks[i..][1..] == chunks[i + 1..];
        WantedStep(have, chunks[i..], missing);
        RequestChunk(chunks[i], x, i);
        i := i + 1;
      }
    }

    method RequestChunk(r: ChunkRef, ghost x: Bytes, ghost i: nat)
      requires Sound(cfg) && i < |Refs(cfg, x)| && r == Refs(cfg, x)[i]
      requires ChunksSeen(cfg, missing, chunkSeen)
      modifies this`missing, this`chunkSeen
      ensures missing == if have(r.digest) || r in old(missing) then old(missing) else old(missing) + [r]
      ensures ChunksSeen(cfg, missing, chunkSeen)
    {
      ChunkSeenMeansRequested(cfg, missing, chunkSeen, x, i);
      if !have(r.digest) && r.digest !in chunkSeen {
        chunkSeen := chunkSeen + {r.digest};
        missing := missing + [r];
      }
    }

    method VisitDir(digest: Digest, ghost es: seq<DirEntry>, ghost open: set<Digest>)
      requires Right(open) && digest == DirDigest(cfg, es)
      requires Answers(cfg, reader, EntriesDirs(cfg, es) + [DirRowOf(cfg, es)], EntriesContents(es))
      requires forall r :: r in EntriesDirs(cfg, es) + [DirRowOf(cfg, es)] ==> r.digest !in open
      requires src.Valid() && src.Backs(reader)
      modifies this, src.Footprint()
      ensures src.Valid()
      ensures Right(open)
      ensures Adds(cfg, have, old(Now()), Now(),
                   EntriesDirs(cfg, es) + [DirRowOf(cfg, es)], EntriesContents(es))
      decreases es, 2
    {
      ghost var rows := EntriesDirs(cfg, es) + [DirRowOf(cfg, es)];
      assert rows[|rows| - 1] == DirRowOf(cfg, es);
      if digest in dirSeen {
        SeenDirAddsNothing(cfg, have, Now(), open, done, es);
        return;
      }
      ghost var before := Now();
      var loaded := EnterDir(digest, es, open);
      if loaded.Ok? {
        var dir := loaded.value;
        WalkEntries(dir.entries, es, open + {digest});
        EmitDir(digest, dir, es, open, before);
      }
    }

    method EnterDir(digest: Digest, ghost es: seq<DirEntry>, ghost open: set<Digest>)
      returns (loaded: Result<CaDirectory, ReadError>)
      requires Right(open) && digest == DirDigest(cfg, es) && digest !in dirSeen
      requires DirRowOf(cfg, es).digest in reader.dirs
      requires src.Valid() && src.Backs(reader)
      modifies this`dirSeen, src.Footprint()
      ensures src.Valid() && loaded == Ok(DirOf(cfg, es))
      ensures Right(open + {digest})
      ensures forall r :: r in EntriesDirs(cfg, es) ==> r.digest != digest
    {
      DirIsNotBelowItself(cfg, es);
      MarkSeen(digest, open);
      loaded := src.Load(digest);
    }

    method MarkSeen(digest: Digest, ghost open: set<Digest>)
      requires Right(open) && digest !in dirSeen
      modifies this`dirSeen
      ensures Right(open + {digest})
    {
      OpenDir(cfg, Now(), open, done, digest);
      dirSeen := dirSeen + {digest};
    }

    /** The directory is listed once everything in it has been. */
    method EmitDir(digest: Digest, dir: CaDirectory, ghost es: seq<DirEntry>, ghost open: set<Digest>,
                   ghost before: Acc)
      requires digest == DirDigest(cfg, es) && dir == DirOf(cfg, es) && digest !in open
      requires Right(open + {digest})
      requires Adds(cfg, have, before, Now(), EntriesDirs(cfg, es), EntriesContents(es))
      modifies this`directories, this`done
      ensures Right(open)
      ensures Adds(cfg, have, before, Now(), EntriesDirs(cfg, es) + [DirRowOf(cfg, es)], EntriesContents(es))
    {
      AddsCovers(cfg, have, before, Now(), es);
      CloseDir(cfg, have, before, Now(), open, done, es);
      directories := directories + [DirRow(digest, dir)];
      done := done + [es];
    }

    method WalkEntries(entries: seq<CaEntry>, ghost es: seq<DirEntry>, ghost open: set<Digest>)
      requires Right(open) && entries == CaEntries(cfg, es)
      requires Answers(cfg, reader, EntriesDirs(cfg, es), EntriesContents(es))
      requires forall r :: r in EntriesDirs(cfg, es) ==> r.digest !in open
      requires src.Valid() && src.Backs(reader)
      modifies this, src.Footprint()
      ensures src.Valid()
      ensures Right(open)
      ensures Adds(cfg, have, old(Now()), Now(), EntriesDirs(cfg, es), EntriesContents(es))
      decreases es, 1
    {
      ghost var before := Now();
      ghost var rows, xs := [], [];
      var i := 0;
      AddsNothing(cfg, have, before);
      NothingWalked(cfg, es);
      while i < |entries|
        invariant i <= |entries| == |es| && src.Valid()
        invariant Right(open) && Adds(cfg, have, before, Now(), rows, xs) && Rest(cfg, es, i, rows, xs)
      {
        rows, xs := WalkNth(entries, i, es, open, before, rows, xs);
        i := i + 1;
      }
      AllWalked(cfg, es, rows, xs);
    }

    method WalkNth(entries: seq<CaEntry>, i: nat, ghost es: seq<DirEntry>, ghost open: set<Digest>,
                   ghost before: Acc, ghost rows: seq<DirRow>, ghost xs: seq<Bytes>)
      returns (ghost rows': seq<DirRow>, ghost xs': seq<Bytes>)
      requires i < |es| && Right(open) && Adds(cfg, have, before, Now(), rows, xs) && Rest(cfg, es, i, rows, xs)
      requires entries == CaEntries(cfg, es)
      requires Answers(cfg, reader, EntriesDirs(cfg, es), EntriesContents(es))
      requires forall r :: r in EntriesDirs(cfg, es) ==> r.digest !in open
      requires src.Valid() && src.Backs(reader)
      modifies this, src.Footprint()
      ensures src.Valid()
      ensures Right(open) && Adds(cfg, have, before, Now(), rows', xs') && Rest(cfg, es, i + 1, rows', xs')
      decreases es, 0
    {
      EntryOfRest(cfg, reader, open, es, i, rows, xs);
      rows', xs' := rows + Dirs(cfg, es[i].node), xs + Contents(es[i].node);
      WalkNext(entries[i].node, es[i].node, open, before, rows, xs);
    }

    /** One turn of the loop: `rows` and `xs` have been walked since `before`. */
    method WalkNext(node: CaNode, ghost t: NarNode, ghost open: set<Digest>, ghost before: Acc,
                    ghost rows: seq<DirRow>, ghost xs: seq<Bytes>)
      requires Right(open) && Adds(cfg, have, before, Now(), rows, xs)
      requires node == CaOf(cfg, t) && Answers(cfg, reader, Dirs(cfg, t), Contents(t))
      requires forall r :: r in Dirs(cfg, t) ==> r.digest !in open
      requires src.Valid() && src.Backs(reader)
      modifies this, src.Footprint()
      ensures src.Valid()
      ensures Right(open)
      ensures Adds(cfg, have, before, Now(), rows + Dirs(cfg, t), xs + Contents(t))
      decreases t, 2
    {
      ghost var mid := Now();
      WalkCasNode(node, t, open);
      AddsTransitive(cfg, have, before, mid, Now(), rows, Dirs(cfg, t), xs, Contents(t));
    }
  }

  /** `rows` and `xs` are what the first `i` entries contain. */
  ghost predicate Rest(c: Config, es: seq<DirEntry>, i: nat, rows: seq<DirRow>, xs: seq<Bytes>)
    requires i <= |es|
  {
    && rows + EntriesDirs(c, es[i..]) == EntriesDirs(c, es)
    && xs + EntriesContents(es[i..]) == EntriesContents(es)
  }

  lemma EntryOfRest(c: Config, reader: Reader, open: set<Digest>, es: seq<DirEntry>, i: nat,
                    rows: seq<DirRow>, xs: seq<Bytes>)
    requires i < |es| && Rest(c, es, i, rows, xs)
    requires Answers(c, reader, EntriesDirs(c, es), EntriesContents(es))
    requires forall r :: r in EntriesDirs(c, es) ==> r.digest !in open
    ensures CaEntries(c, es)[i] == CaEntry(es[i].name, CaOf(c, es[i].node))
    ensures Rest(c, es, i + 1, rows + Dirs(c, es[i].node), xs + Contents(es[i].node))
    ensures Answers(c, reader, Dirs(c, es[i].node), Contents(es[i].node))
    ensures forall r :: r in Dirs(c, es[i].node) ==> r.digest !in open
  {
    CaEntriesAt(c, es, i);
    assert es[i..][1..] == es[i + 1..];
    PartsOfRest(c, es[i..], rows, EntriesDirs(c, es), xs, EntriesContents(es));
  }

  lemma WantedStep(have: Digest -> bool, refs: seq<ChunkRef>, missing: seq<ChunkRef>)
    requires refs != []
    ensures AddNew(missing, Wanted(have, refs))
            == AddNew(if have(refs[0].digest) || refs[0] in missing then missing else missing + [refs[0]],
                      Wanted(have, refs[1..]))
  {
    var rest := Wanted(have, refs[1..]);
    assert ([refs[0]] + rest)[1..] == rest && [] + rest == rest;
  }

  lemma NothingWalked(c: Config, es: seq<DirEntry>)
    ensures Rest(c, es, 0, [], [])
  {
    assert es[0..] == es;
    assert [] + EntriesDirs(c, es) == EntriesDirs(c, es) && [] + EntriesContents(es) == EntriesContents(es);
  }

  lemma AllWalked(c: Config, es: seq<DirEntry>, rows: seq<DirRow>, xs: seq<Bytes>)
    requires Rest(c, es, |es|, rows, xs)
    ensures rows == EntriesDirs(c, es) && xs == EntriesContents(es)
  {
    assert es[|es|..] == [];
    assert rows + [] == rows && xs + [] == xs;
  }

  lemma InTheMiddle<T>(a: seq<T>, b: seq<T>, d: seq<T>)
    ensures a + (b + d) == a + b + d && forall x :: x in b ==> x in a + b + d
  {
  }

  lemma {:induction false} PartsOfRest(c: Config, es: seq<DirEntry>, rows: seq<DirRow>, allRows: seq<DirRow>,
                    xs: seq<Bytes>, allXs: seq<Bytes>)
    requires es != []
    requires rows + EntriesDirs(c, es) == allRows && xs + EntriesContents(es) == allXs
    ensures rows + Dirs(c, es[0].node) + EntriesDirs(c, es[1..]) == allRows
    ensures xs + Contents(es[0].node) + EntriesContents(es[1..]) == allXs
    ensures forall r :: r in Dirs(c, es[0].node) ==> r in allRows
    ensures forall x :: x in Contents(es[0].node) ==> x in allXs
  {
    var ds, fs := Dirs(c, es[0].node), Contents(es[0].node);
    InTheMiddle(rows, ds, EntriesDirs(c, es[1..]));
    InTheMiddle(xs, fs, EntriesContents(es[1..]));
  }
}
