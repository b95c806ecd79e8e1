/** Chunk sync: after one negotiation the client rebuilds every wanted archive, byte for byte,
    from what it had and what it was told to fetch. */
module CasPulls {
  import opened Base
  import opened NarFormat
  import opened NameOrder
  import opened Merkle
  import opened Streaming
  import opened CasStore
  import opened CasReads
  import opened Castores
  import opened TreeWalks
  import opened TreeWalkResults
  import opened ChunkStores
  import opened Blooms
  import opened HaveChecks
  import opened Manifests

  // --- The server can serve what it announces ---

  lemma {:induction false} WantedTreesAreHeld(c: Config, s: Store, m: Catalog, wants: seq<Hash>)
    requires Inv(c, s, m)
    ensures forall t :: t in WantedTrees(m, wants) ==> Holds(c, s, t)
    decreases |wants|
  {
    if wants != [] {
      if wants[0] in m && m[wants[0]].Holding? {
        assert PathRight(c, s, wants[0], m[wants[0]].tree);
      }
      WantedTreesAreHeld(c, s, m, wants[1..]);
    }
  }

  lemma {:induction false} TreeOfContent(ts: seq<NarNode>, x: Bytes)
    requires x in AllContents(ts)
    ensures exists t :: t in ts && x in Contents(t)
    decreases |ts|
  {
    if x in Contents(ts[0]) {
      assert ts[0] in ts;
    } else {
      TreeOfContent(ts[1..], x);
    }
  }

  /** The server answers a request for `r` with the chunk its digest names. */
  ghost predicate Serves(c: Config, s: Store, r: ChunkRef) {
    var data := c.preimage(r.digest);
    GetChunk(c, s, r.digest) == Ok(Some(data)) && c.hash(data) == r.digest
  }

  lemma NeededChunkIsServed(c: Config, s: Store, m: Catalog, wants: seq<Hash>, r: ChunkRef)
    requires Sound(c) && Inv(c, s, m) && Needs(c, AllContents(WantedTrees(m, wants)), r)
    ensures Serves(c, s, r)
  {
    var ts := WantedTrees(m, wants);
    var x :| x in AllContents(ts) && r in Refs(c, x);
    TreeOfContent(ts, x);
    WantedTreesAreHeld(c, s, m, wants);
    OnlyEmptyFilesHaveNoChunks(c, x);
    var i :| 0 <= i < |Refs(c, x)| && Refs(c, x)[i] == r;
    var p := c.chunk(x)[i];
    assert p in c.chunk(x) && c.preimage(c.hash(p)) == p;
    assert s.fileChunks[c.hash(x)] == Refs(c, x);
    assert ListsChunk(s.fileChunks[c.hash(x)], r.digest);
    StoredChunkReadsBack(c, s, p);
  }

  // --- The client holds everything the wanted trees need ---

  lemma IndexedTreeIsComplete(c: Config, directories: map<Digest, Bytes>, rows: map<Digest, seq<ChunkRef>>,
                              files: map<Digest, Bytes>, t: NarNode)
    requires Sound(c) && RowsGenuine(c, rows) && DirsRight(c, directories)
    requires forall x :: c.hash(x) in files ==> files[c.hash(x)] == x
    requires forall r :: r in Dirs(c, t) ==> r.digest in directories
    requires forall x :: x in Contents(t) && x != [] ==> c.hash(x) in rows
    requires forall r :: Needs(c, Contents(t), r) ==> r.digest in files
    ensures Complete(c, ClientReader(c, directories, rows, files), t)
  {
    var reader := ClientReader(c, directories, rows, files);
    DirsAreAddressed(c, t);
    forall r | r in Dirs(c, t)
      ensures r.digest in reader.dirs
    {
      assert directories[r.digest] == c.encode(r.dir);
    }
    forall x | x in Contents(t)
      ensures ReadFile(reader, c.hash(x)) == Done(x)
    {
      OnlyEmptyFilesHaveNoChunks(c, x);
      forall p | p in c.chunk(x)
        ensures c.hash(p) in files
      {
        var i :| 0 <= i < |c.chunk(x)| && c.chunk(x)[i] == p;
        assert Refs(c, x)[i] in Refs(c, x);
        assert Needs(c, Contents(t), Refs(c, x)[i]);
      }
      ChunksConcatenate(c, reader, c.chunk(x));
      assert ReadChunks(reader, Refs(c, x)) == Done(x);
    }
  }

  /** What the tables hold once the response is indexed and the missing chunks are stored. */
  ghost predicate Synced(client: ChunkStore, answer: WalkResult)
    reads client
  {
    && client.Valid()
    && (forall r :: r in answer.missing ==> r.digest in client.files)
    && (forall r :: r in answer.directories ==> r.digest in client.directories)
    && (forall m :: m in answer.mappings ==> m.file in client.fileChunks)
  }

  lemma {:induction false} WantedTreeParts(c: Config, m: Catalog, wants: seq<Hash>, h: Hash)
    requires h in wants && h in m && m[h].Holding?
    ensures forall x :: x in Contents(m[h].tree) ==> x in AllContents(WantedTrees(m, wants))
    ensures forall r :: r in Dirs(c, m[h].tree) ==> r in AllDirs(c, WantedTrees(m, wants))
    decreases |wants|
  {
    var rest := WantedTrees(m, wants[1..]);
    if wants[0] == h {
      assert WantedTrees(m, wants) == [m[h].tree] + rest;
    } else {
      WantedTreeParts(c, m, wants[1..], h);
      if wants[0] in m && m[wants[0]].Holding? {
        assert WantedTrees(m, wants) == [m[wants[0]].tree] + rest;
        assert ([m[wants[0]].tree] + rest)[1..] == rest;
      } else {
        assert WantedTrees(m, wants) == rest;
      }
    }
  }

  /** Every needed chunk that `have` claims is really there. */
  ghost predicate ClaimsHold(client: ChunkStore, have: Digest -> bool, t: NarNode)
    reads client
  {
    forall r :: Needs(client.cfg, Contents(t), r) && have(r.digest) ==> r.digest in client.files
  }

  /** The sync theorem, for any membership test: the archive of a wanted tree can be written if and
      only if the test claims no chunk of it that the client lacks; then it is the server's archive. */
  lemma RebuiltIffClaimsHold(client: ChunkStore, m: Catalog, wants: seq<Hash>, have: Digest -> bool, h: Hash)
    requires Synced(client, NaiveWalk(client.cfg, have, WantedTrees(m, wants)))
    requires h in wants && h in m && m[h].Holding?
    ensures var t := m[h].tree;
            var o := NarOutput(client.cfg, client.LocalReader(), CaOf(client.cfg, t), t);
            && (o.error.None? <==> ClaimsHold(client, have, t))
            && (o.error.None? ==> Some(o) == AbsWritten(m, h))
  {
    var c, t, reader := client.cfg, m[h].tree, client.LocalReader();
    var o := NarOutput(c, reader, CaOf(c, t), t);
    if o.error.None? {
      RenderedFilesRead(c, reader, t);
      ReadableHasChunks(client, m, wants, have, h);
    }
    if ClaimsHold(client, have, t) {
      SyncedTreeIsComplete(client, m, wants, have, h);
      CompleteIsWritten(c, reader, t);
    }
  }

  lemma SyncedTreeIsComplete(client: ChunkStore, m: Catalog, wants: seq<Hash>, have: Digest -> bool, h: Hash)
    requires Synced(client, NaiveWalk(client.cfg, have, WantedTrees(m, wants)))
    requires h in wants && h in m && m[h].Holding? && ClaimsHold(client, have, m[h].tree)
    ensures Complete(client.cfg, client.LocalReader(), m[h].tree)
  {
    var c, t, ts := client.cfg, m[h].tree, WantedTrees(m, wants);
    WantedTreeParts(c, m, wants, h);
    DirectoriesAreExact(c, have, ts);
    WantedRowsAreIndexed(client, m, wants, have, h);
    MissingIsExact(c, have, ts);
    forall r | Needs(c, Contents(t), r)
      ensures r.digest in client.files
    {
      var x :| x in Contents(t) && r in Refs(c, x);
      assert Needs(c, AllContents(ts), r);
      assert have(r.digest) || r in NaiveWalk(c, have, ts).missing;
    }
    IndexedTreeIsComplete(c, client.directories, client.fileChunks, client.files, t);
  }

  lemma WantedRowsAreIndexed(client: ChunkStore, m: Catalog, wants: seq<Hash>, have: Digest -> bool, h: Hash)
    requires Synced(client, NaiveWalk(client.cfg, have, WantedTrees(m, wants)))
    requires h in wants && h in m && m[h].Holding?
    ensures forall x :: x in Contents(m[h].tree) ==>
              x == [] || RowsOf(client.fileChunks, client.cfg.hash(x)) == Refs(client.cfg, x)
    ensures forall x :: x in Contents(m[h].tree) && x != [] ==> client.cfg.hash(x) in client.fileChunks
  {
    var c, ts := client.cfg, WantedTrees(m, wants);
    WantedTreeParts(c, m, wants, h);
    MappingsAreExact(c, have, ts);
    forall x | x in Contents(m[h].tree) && x != []
      ensures c.hash(x) in client.fileChunks
    {
      assert Maps(c, AllContents(ts), FileMapping(c.hash(x), Refs(c, x)));
    }
  }

  lemma ReadableHasChunks(client: ChunkStore, m: Catalog, wants: seq<Hash>, have: Digest -> bool, h: Hash)
    requires Synced(client, NaiveWalk(client.cfg, have, WantedTrees(m, wants)))
    requires h in wants && h in m && m[h].Holding?
    requires forall x :: x in Contents(m[h].tree) ==>
               ReadFile(client.LocalReader(), client.cfg.hash(x)).error.None?
    ensures ClaimsHold(client, have, m[h].tree)
  {
    var c, t := client.cfg, m[h].tree;
    WantedRowsAreIndexed(client, m, wants, have, h);
    forall r | Needs(c, Contents(t), r)
      ensures r.digest in client.files
    {
      var x :| x in Contents(t) && r in Refs(c, x);
      OnlyEmptyFilesHaveNoChunks(c, x);
      ReadNeedsChunks(client.LocalReader(), Refs(c, x));
    }
  }

  // --- What a client may be told wrongly ---

  /** The request claims no chunk of `t` that is not in `had`. */
  ghost predicate NoFalseClaim(c: Config, keyOf: KeyOf, had: set<Digest>, numBytes: nat, numHashes: nat, t: NarNode)
    requires numBytes > 0
  {
    forall r :: Needs(c, Contents(t), r) && CountsAsHeld(keyOf, had, numBytes, numHashes, r.digest) ==> r.digest in had
  }

  /** One colliding key is enough: a client with a large enough store that has a chunk under the first
      of two colliding keys never gets a tree with a chunk under the second. */
  lemma CollisionBlocksTree(c: Config, keyOf: KeyOf, had: set<Digest>, numBytes: nat, numHashes: nat,
                            t: NarNode, e: Digest, r: ChunkRef)
    requires numBytes > 0 && 8 * numBytes + numHashes < U64 && |had| > BLOOM_THRESHOLD
    requires e in had && keyOf(e) == KeyOfWords(0, 1)
    requires Needs(c, Contents(t), r) && r.digest !in had && keyOf(r.digest) == KeyOfWords(8 * numBytes, 1)
    ensures !NoFalseClaim(c, keyOf, had, numBytes, numHashes, t)
  {
    forall i | 0 <= i < numHashes
      ensures HitByOne(keyOf, had, numHashes, 8 * numBytes, Position(keyOf(r.digest), i, 8 * numBytes))
    {
      KeysCollide(8 * numBytes, i);
      assert Hits(keyOf(e), numHashes, 8 * numBytes, Position(keyOf(r.digest), i, 8 * numBytes));
    }
    assert CountsAsHeld(keyOf, had, numBytes, numHashes, r.digest);
  }

  function Test(check: HaveCheck, keyOf: KeyOf): Digest -> bool { d => Contains(check, keyOf, d) }

  function DigestsOf(refs: seq<ChunkRef>): set<Digest> { set r | r in refs :: r.digest }

  /** Downloading what was not claimed cannot repair a false claim. */
  lemma ClaimsAreDecidedBefore(client: ChunkStore, had: set<Digest>, check: HaveCheck, keyOf: KeyOf,
                               numBytes: nat, numHashes: nat, ts: seq<NarNode>, t: NarNode)
    requires numBytes > 0 && Sound(client.cfg)
    requires client.files.Keys == had + DigestsOf(NaiveWalk(client.cfg, Test(check, keyOf), ts).missing)
    requires forall d :: Contains(check, keyOf, d) <==> CountsAsHeld(keyOf, had, numBytes, numHashes, d)
    ensures ClaimsHold(client, Test(check, keyOf), t)
            <==> NoFalseClaim(client.cfg, keyOf, had, numBytes, numHashes, t)
  {
    MissingIsExact(client.cfg, Test(check, keyOf), ts);
    forall d | d in client.files && Contains(check, keyOf, d)
      ensures d in had
    {
      assert Test(check, keyOf)(d);
    }
    forall r | Needs(client.cfg, Contents(t), r)
      ensures Test(check, keyOf)(r.digest) <==> CountsAsHeld(keyOf, had, numBytes, numHashes, r.digest)
    {
      assert Test(check, keyOf)(r.digest) <==> Contains(check, keyOf, r.digest);
    }
  }

  // --- The pull ---

  /** Downloads one chunk, checks its digest, and stores it. */
  method FetchChunk(server: Castore, client: ChunkStore, r: ChunkRef) returns (ok: bool)
    requires client.Valid() && server.cfg == client.cfg && Serves(server.cfg, server.State(), r)
    modifies client`chunks, client`files
    ensures ok && client.Valid() && client.files.Keys == old(client.files.Keys) + {r.digest}
  {
    var answer := server.GetChunkByDigest(r.digest);
    ok := answer.Ok? && answer.value.Some? && server.cfg.hash(answer.value.value) == r.digest;
    if ok {
      client.StoreChunk(r.digest, answer.value.value);
    }
  }

  /** Downloads what was announced. */
  method FetchChunks(server: Castore, client: ChunkStore, missing: seq<ChunkRef>) returns (ok: bool)
    requires client.Valid() && server.cfg == client.cfg
    requires forall r :: r in missing ==> Serves(server.cfg, server.State(), r)
    modifies client`chunks, client`files
    ensures ok && client.Valid() && client.files.Keys == old(client.files.Keys) + DigestsOf(missing)
  {
    ok := true;
    ghost var c, served, had := server.cfg, server.State(), client.files.Keys;
    var i := 0;
    while i < |missing|
      invariant 0 <= i <= |missing| && ok && client.Valid() && server.State() == served
      invariant client.files.Keys == had + DigestsOf(missing[..i])
    {
      DigestsSnoc(missing, i);
      assert Serves(c, served, missing[i]);
      var fetched := FetchChunk(server, client, missing[i]);
      ok := ok && fetched;
      i := i + 1;
    }
    assert missing[..i] == missing;
  }

  lemma DigestsSnoc(refs: seq<ChunkRef>, i: nat)
    requires i < |refs|
    ensures refs[i] in refs && DigestsOf(refs[..i + 1]) == DigestsOf(refs[..i]) + {refs[i].digest}
  {
    assert refs[..i + 1] == refs[..i] + [refs[i]];
  }

  /** Negotiates with the given test, indexes the answer, fetches what is missing. */
  method Sync(server: Castore, client: ChunkStore, have: Digest -> bool, wants: seq<Hash>) returns (ok: bool)
    requires server.Valid() && client.Valid() && server.cfg == client.cfg
    modifies client, server.dirCache
    ensures ok && server.Valid()
    ensures var answer := NaiveWalk(client.cfg, have, WantedTrees(server.catalog, wants));
            Synced(client, answer) && client.files.Keys == old(client.files.Keys) + DigestsOf(answer.missing)
  {
    var answer := WalkCasTrees(server, wants, have);
    ghost var ts := WantedTrees(server.catalog, wants);
    AnswerIsServed(server.cfg, server.State(), server.catalog, wants, have);
    client.IndexResponse(answer.directories, answer.mappings, AllContents(ts));
    ok := FetchChunks(server, client, answer.missing);
  }

  lemma AnswerIsServed(c: Config, s: Store, m: Catalog, wants: seq<Hash>, have: Digest -> bool)
    requires Sound(c) && Inv(c, s, m)
    ensures var ts := WantedTrees(m, wants);
            var answer := NaiveWalk(c, have, ts);
            && Addressed(c, answer.directories)
            && (forall mapping :: mapping in answer.mappings ==> Maps(c, AllContents(ts), mapping))
            && (forall r :: r in answer.missing ==> Serves(c, s, r))
  {
    var ts := WantedTrees(m, wants);
    DirectoriesAreExact(c, have, ts);
    MappingsAreExact(c, have, ts);
    MissingIsExact(c, have, ts);
    forall r | r in NaiveWalk(c, have, ts).missing
      ensures Serves(c, s, r)
    {
      NeededChunkIsServed(c, s, m, wants, r);
    }
  }

  const MAX_CHUNK_WANT: nat := 10_000
  const MAX_CHUNK_HAVE: nat := 10_000

  /** What a client asks for: the hashes it wants and those it has, what the manifest expects of each archive,
      and the size of a filter if it sends one. */
  datatype Demand = Demand(wants: seq<Hash>, haves: seq<Hash>, manifest: Manifest, numBytes: nat, numHashes: nat)

  /** The server refuses long lists and large filters. */
  predicate Refused(d: Demand, numChunks: nat) {
    || |d.wants| > MAX_CHUNK_WANT || |d.haves| > MAX_CHUNK_HAVE
    || (numChunks > BLOOM_THRESHOLD && d.numBytes > MAX_BLOOM_BYTES)
  }

  /** The path is wanted and held, no chunk of it is claimed wrongly, and its rebuilt archive has the hash that
      the manifest expects. */
  ghost predicate Pulls(c: Config, keyOf: KeyOf, m: Catalog, d: Demand, had: set<Digest>, h: Hash)
    requires d.numBytes > 0
  {
    && h in d.wants && h in m && m[h].Holding?
    && NoFalseClaim(c, keyOf, had, d.numBytes, d.numHashes, m[h].tree)
    && Verified(d.manifest, h, WriteNar(Canon(m[h].tree)))
  }

  /** Exactly the paths that pull arrive, and read on the client as they read on the server; up to 1000 chunks the
      request is exact, so that only a wrong hash stands in the way.  `None` means that the server refuses. */
  method CasPull(server: Castore, client: ChunkStore, keyOf: KeyOf, d: Demand) returns (nars: Option<map<Hash, Bytes>>)
    requires server.Valid() && client.Valid() && server.cfg == client.cfg
    requires d.numBytes > 0 && d.numHashes >= 1
    modifies client, server.dirCache
    ensures server.Valid() && client.Valid()
    ensures nars.None? <==> Refused(d, |old(client.chunks)|)
    ensures nars.Some? ==> forall h :: h in nars.value
                                       <==> Pulls(client.cfg, keyOf, server.catalog, d, old(client.chunks.Keys), h)
    ensures nars.Some? ==> forall h :: h in nars.value ==> AbsRead(server.catalog, h) == Ok(Some(nars.value[h]))
    ensures |old(client.chunks)| <= BLOOM_THRESHOLD && nars.Some? ==>
              forall h :: h in nars.value <==>
                && h in d.wants && h in server.catalog && server.catalog[h].Holding?
                && Verified(d.manifest, h, WriteNar(Canon(server.catalog[h].tree)))
  {
    var ds := client.ListChunkDigests();
    ghost var had := client.chunks.Keys;
    assert SetOf(ds) == had && |had| == |client.chunks|;
    var check := BuildCheck(ds, keyOf, d.numBytes, d.numHashes);
    if |d.wants| > MAX_CHUNK_WANT || |d.haves| > MAX_CHUNK_HAVE {
      return None;
    }
    if check.Bloom? && |check.bits| > MAX_BLOOM_BYTES {
      return None;
    }
    var rebuilt := Pull(server, client, check, keyOf, d, had);
    nars := Some(rebuilt);
    ExactClaimsAreTrue(client.cfg, keyOf, server.catalog, d, had);
  }

  lemma ExactClaimsAreTrue(c: Config, keyOf: KeyOf, m: Catalog, d: Demand, had: set<Digest>)
    requires d.numBytes > 0
    ensures |had| <= BLOOM_THRESHOLD ==>
              forall h :: Pulls(c, keyOf, m, d, had, h)
                          <==> && h in d.wants && h in m && m[h].Holding?
                               && Verified(d.manifest, h, WriteNar(Canon(m[h].tree)))
  {
  }

  /** The pull after the request has been accepted. */
  method Pull(server: Castore, client: ChunkStore, check: HaveCheck, keyOf: KeyOf, d: Demand, ghost had: set<Digest>)
    returns (nars: map<Hash, Bytes>)
    requires server.Valid() && client.Valid() && server.cfg == client.cfg && client.chunks.Keys == had && d.numBytes > 0
    requires forall x :: Contains(check, keyOf, x) <==> CountsAsHeld(keyOf, had, d.numBytes, d.numHashes, x)
    modifies client, server.dirCache
    ensures server.Valid() && client.Valid()
    ensures forall h :: h in nars <==> Pulls(client.cfg, keyOf, server.catalog, d, had, h)
    ensures forall h :: h in nars ==> AbsRead(server.catalog, h) == Ok(Some(nars[h]))
  {
    RootsMeanTrees(server.cfg, server.State(), server.catalog);
    var ok := Sync(server, client, Test(check, keyOf), d.wants);
    ghost var m, ts := server.catalog, WantedTrees(server.catalog, d.wants);
    forall h | h in d.wants && h in m && m[h].Holding?
      ensures ClaimsHold(client, Test(check, keyOf), m[h].tree)
              <==> NoFalseClaim(client.cfg, keyOf, had, d.numBytes, d.numHashes, m[h].tree)
    {
      ClaimsAreDecidedBefore(client, had, check, keyOf, d.numBytes, d.numHashes, ts, m[h].tree);
    }
    nars := Rebuild(server.paths, client, d.wants, d.manifest, Test(check, keyOf), m);
  }

  /** A root node announced for a path is the root of the tree that path holds. */
  ghost predicate RootsMatch(c: Config, paths: map<Hash, PathRow>, m: Catalog) {
    forall h :: (h in paths && !paths[h].root.CaEmpty? <==> h in m && m[h].Holding?)
                && (h in m && m[h].Holding? ==> h in paths && paths[h].root == CaOf(c, m[h].tree))
  }

  lemma RootsMeanTrees(c: Config, s: Store, m: Catalog)
    requires Inv(c, s, m)
    ensures RootsMatch(c, s.paths, m)
  {
  }

  /** The path is wanted and held, its archive can be written and has the expected hash. */
  ghost predicate Arrives(client: ChunkStore, have: Digest -> bool, m: Catalog, wants: seq<Hash>, manifest: Manifest,
                          h: Hash)
    reads client
  {
    && h in wants && h in m && m[h].Holding? && ClaimsHold(client, have, m[h].tree)
    && Verified(manifest, h, WriteNar(Canon(m[h].tree)))
  }

  /** Writes the archive of every announced root from the local tables; a path that is not in the manifest, cannot
      be written, or has another hash is skipped. */
  method Rebuild(roots: map<Hash, PathRow>, client: ChunkStore, wants: seq<Hash>, manifest: Manifest,
                 ghost have: Digest -> bool, ghost m: Catalog)
    returns (nars: map<Hash, Bytes>)
    requires RootsMatch(client.cfg, roots, m)
    requires Synced(client, NaiveWalk(client.cfg, have, WantedTrees(m, wants)))
    ensures forall h :: h in nars <==> Arrives(client, have, m, wants, manifest, h)
    ensures forall h :: h in nars ==> AbsRead(m, h) == Ok(Some(nars[h]))
  {
    nars := map[];
    var i := 0;
    while i < |wants|
      invariant 0 <= i <= |wants| && Rebuilt(client, have, m, wants, manifest, wants[..i], nars)
    {
      var h := wants[i];
      var nar := RebuildPath(roots, client, wants, manifest, h, have, m);
      RebuiltSnoc(client, have, m, wants, manifest, wants[..i], nars, h, nar);
      assert wants[..i + 1] == wants[..i] + [h];
      if nar.Some? {
        nars := nars[h := nar.value];
      }
      i := i + 1;
    }
    assert wants[..i] == wants;
  }

  /** Of the paths `done`, those that arrive have been rebuilt. */
  ghost predicate Rebuilt(client: ChunkStore, have: Digest -> bool, m: Catalog, wants: seq<Hash>, manifest: Manifest,
                          done: seq<Hash>, nars: map<Hash, Bytes>)
    reads client
  {
    && (forall h :: h in nars <==> h in done && Arrives(client, have, m, wants, manifest, h))
    && (forall h :: h in nars ==> AbsRead(m, h) == Ok(Some(nars[h])))
  }

  lemma RebuiltSnoc(client: ChunkStore, have: Digest -> bool, m: Catalog, wants: seq<Hash>, manifest: Manifest,
                    done: seq<Hash>, nars: map<Hash, Bytes>, h: Hash, nar: Option<Bytes>)
    requires Rebuilt(client, have, m, wants, manifest, done, nars)
    requires nar.Some? <==> Arrives(client, have, m, wants, manifest, h)
    requires nar.Some? ==> AbsRead(m, h) == Ok(Some(nar.value))
    ensures Rebuilt(client, have, m, wants, manifest, done + [h], if nar.Some? then nars[h := nar.value] else nars)
  {
  }

  method RebuildPath(roots: map<Hash, PathRow>, client: ChunkStore, ghost wants: seq<Hash>, manifest: Manifest,
                     h: Hash, ghost have: Digest -> bool, ghost m: Catalog)
    returns (nar: Option<Bytes>)
    requires RootsMatch(client.cfg, roots, m) && h in wants
    requires Synced(client, NaiveWalk(client.cfg, have, WantedTrees(m, wants)))
    ensures nar.Some? <==> Arrives(client, have, m, wants, manifest, h)
    ensures nar.Some? ==> AbsRead(m, h) == Ok(Some(nar.value))
  {
    if h !in roots || h !in manifest.narHash {
      return None;
    }
    ghost var t := if h in m && m[h].Holding? then m[h].tree else Symlink([]);
    if h in m && m[h].Holding? {
      RebuiltIffClaimsHold(client, m, wants, have, h);
    }
    var written := client.WriteNar(roots[h].root, t);
    if written.Err? || !VerifyNarHash(manifest.sha256, written.value, manifest.narHash[h]) {
      return None;
    }
    nar := Some(written.value);
  }

  /** A held path whose manifest has the hash of the bytes pushed last is kept back exactly if these bytes were
      not the archive of a sorted tree. */
  lemma PushedPathPulls(c: Config, keyOf: KeyOf, ops: seq<Op>, data: Bytes, now: nat, more: seq<Op>, d: Demand,
                        had: set<Digest>, h: Hash)
    requires d.numBytes > 0 && h in d.wants && ParseNar(data).Ok?
    requires forall op :: op in more ==> Spares(op, h)
    requires Collisionless(d.manifest.sha256) && Expects(d.manifest, h, data)
    requires NoFalseClaim(c, keyOf, had, d.numBytes, d.numHashes, ParseNar(data).value)
    ensures Pulls(c, keyOf, AbsRun(ops + [OpPutNar(h, data, now)] + more), d, had, h) <==> IsCanonical(data)
  {
    LastPutStays(ops, h, data, now, more);
    RebuiltVerifiesIff(d.manifest, h, data);
  }
}
