/** Eviction removes exactly what no other path needs, and accounts for every byte. */
module CasEviction {
  import opened NarFormat
  import opened Merkle
  import opened CasStore
  import opened CasInvariant

  // --- Eviction keeps the invariant ---

  lemma SharedFileStays(s: Store, h: Hash, k: Hash, f: Digest)
    requires (k, f) in s.pathFiles && k != h
    ensures f !in DeadFiles(s, h)
  {
  }

  lemma EvictKeepsTables(c: Config, s: Store, h: Hash)
    requires TablesRight(c, s)
    ensures TablesRight(c, Evict(s, h))
  {
  }

  lemma EvictKeepsInv(c: Config, s: Store, m: Catalog, h: Hash)
    requires Inv(c, s, m)
    ensures Inv(c, Evict(s, h), m - {h})
  {
    var s', m' := Evict(s, h), m - {h};
    EvictKeepsTables(c, s, h);
    forall k | k in m' && m'[k].Holding?
      ensures PathRight(c, s', k, m'[k].tree)
    {
      assert PathRight(c, s, k, m[k].tree);
      forall x | x in Contents(m[k].tree) && x != []
        ensures c.hash(x) in s'.fileChunks
      {
        SharedFileStays(s, h, k, c.hash(x));
      }
    }
    forall k, x | (k, c.hash(x)) in s'.pathFiles && x != []
      ensures c.hash(x) in s'.fileChunks
    {
      SharedFileStays(s, h, k, c.hash(x));
    }
  }

  // --- Every run ---

  lemma StepKeepsInv(c: Config, s: Store, m: Catalog, op: Op)
    requires Sound(c) && Inv(c, s, m)
    ensures Inv(c, Step(c, s, op), AbsStep(m, op))
  {
    match op
    case OpPutNar(h, data, now) =>
      if ParseNar(data).Ok? {
        PutTreeKeepsInv(c, s, m, h, ParseNar(data).value, now);
      }
    case OpPutNarinfo(h, now) => PutNarinfoKeepsInv(c, s, m, h, now);
    case OpStoreChunk(data) => StoreChunkKeepsInv(c, s, m, data);
    case OpAccess(hashes, now) => UpdateAccessKeepsInv(c, s, m, hashes, now);
    case OpEvict(h) => EvictKeepsInv(c, s, m, h);
  }

  lemma {:induction false} RunKeepsInv(c: Config, ops: seq<Op>)
    requires Sound(c)
    ensures Inv(c, Run(c, ops), AbsRun(ops))
    decreases |ops|
  {
    if ops == [] {
      EmptyIsRight(c);
    } else {
      var n := |ops| - 1;
      RunKeepsInv(c, ops[..n]);
      StepKeepsInv(c, Run(c, ops[..n]), AbsRun(ops[..n]), ops[n]);
    }
  }

  // --- No garbage ---

  lemma EvictKeepsFilesOwned(s: Store, h: Hash)
    requires FilesOwned(s)
    ensures FilesOwned(Evict(s, h))
  {
    var s' := Evict(s, h);
    forall f | f in s'.fileChunks
      ensures exists p :: p in s'.pathFiles && p.1 == f
    {
      var p :| p in s.pathFiles && p.1 == f;
      if p.0 == h {
        assert f in Owned(s, h);
        var q :| q in s.pathFiles && q.1 == f && q.0 != h;
        assert q in s'.pathFiles;
      } else {
        assert p in s'.pathFiles;
      }
    }
  }

  /** Evicting neither leaves a chunk behind that only the evicted path used nor touches one that no path uses. */
  lemma EvictKeepsOrphans(s: Store, h: Hash)
    ensures Orphans(Evict(s, h)) == Orphans(s)
  {
    var s' := Evict(s, h);
    forall d | d in s'.chunks && Mentions(s.fileChunks, d)
      ensures Mentions(s'.fileChunks, d)
    {
      var f :| f in s.fileChunks && ListsChunk(s.fileChunks[f], d);
      if f in DeadFiles(s, h) {
        assert d in ChunksOf(s.fileChunks[f]);
        assert d in ChunksOfFiles(s.fileChunks, DeadFiles(s, h));
      } else {
        assert s'.fileChunks[f] == s.fileChunks[f];
      }
    }
    forall d | d in Orphans(s)
      ensures d in s'.chunks && !Mentions(s'.fileChunks, d)
    {
      OrphanIsUntouched(s, h, d);
    }
  }

  lemma OrphanIsUntouched(s: Store, h: Hash, d: Digest)
    requires d in Orphans(s)
    ensures d in Evict(s, h).chunks && !Mentions(Evict(s, h).fileChunks, d)
  {
    var rows := Evict(s, h).fileChunks;
    assert forall f :: f in rows ==> f in s.fileChunks && rows[f] == s.fileChunks[f];
    assert d in ChunksOfFiles(s.fileChunks, DeadFiles(s, h)) ==> Mentions(s.fileChunks, d);
  }

  lemma EvictLeavesNoGarbage(s: Store, h: Hash)
    requires NoGarbage(s)
    ensures NoGarbage(Evict(s, h))
  {
    EvictKeepsFilesOwned(s, h);
    EvictKeepsOrphans(s, h);
  }

  lemma PutTreeKeepsFilesOwned(c: Config, s: Store, h: Hash, t: NarNode, now: nat)
    requires Sound(c) && TablesRight(c, s) && FilesOwned(s)
    ensures FilesOwned(PutTree(c, s, h, t, now))
  {
    var s' := PutTree(c, s, h, t, now);
    IngestAdds(c, s, t);
    forall f | f in s'.fileChunks
      ensures exists p :: p in s'.pathFiles && p.1 == f
    {
      if f in s.fileChunks {
        var p :| p in s.pathFiles && p.1 == f;
        assert p in s'.pathFiles;
      } else {
        assert f in FileDigests(c, t);
        assert (h, f) in s'.pathFiles;
      }
    }
  }

  lemma PutTreeMakesNoGarbage(c: Config, s: Store, h: Hash, t: NarNode, now: nat)
    requires Sound(c) && TablesRight(c, s) && NoGarbage(s)
    ensures NoGarbage(PutTree(c, s, h, t, now))
  {
    var s1, s' := Ingest(c, s, t), PutTree(c, s, h, t, now);
    PutTreeKeepsFilesOwned(c, s, h, t, now);
    IngestAdds(c, s, t);
    AddedHolds(c, s, s1, t);
    forall d | d in s'.chunks
      ensures Mentions(s'.fileChunks, d)
    {
      if d in s.chunks {
        assert d !in Orphans(s);
        var f :| f in s.fileChunks && ListsChunk(s.fileChunks[f], d);
        assert s'.fileChunks[f] == s.fileChunks[f];
      } else {
        NewChunkIsListed(c, s1, t, d);
      }
    }
  }

  lemma NewChunkIsListed(c: Config, s: Store, t: NarNode, d: Digest)
    requires Sound(c) && TablesRight(c, s) && Holds(c, s, t) && d in ChunkDigests(c, Contents(t))
    ensures Mentions(s.fileChunks, d)
  {
  }

  lemma StepMakesNoGarbage(c: Config, s: Store, op: Op)
    requires Sound(c) && TablesRight(c, s) && NoGarbage(s) && !op.OpStoreChunk?
    ensures NoGarbage(Step(c, s, op))
  {
    match op
    case OpPutNar(h, data, now) =>
      if ParseNar(data).Ok? {
        PutTreeMakesNoGarbage(c, s, h, ParseNar(data).value, now);
      }
    case OpAccess(hashes, now) =>
    case OpPutNarinfo(h, now) =>
    case OpEvict(h) => EvictLeavesNoGarbage(s, h);
  }

  /** Only an uploaded chunk can be unreferenced. */
  lemma {:induction false} RunWithoutUploadsHasNoGarbage(c: Config, ops: seq<Op>)
    requires Sound(c) && forall op :: op in ops ==> !op.OpStoreChunk?
    ensures NoGarbage(Run(c, ops))
    decreases |ops|
  {
    if ops != [] {
      var n := |ops| - 1;
      RunWithoutUploadsHasNoGarbage(c, ops[..n]);
      RunKeepsInv(c, ops[..n]);
      assert ops[n] in ops;
      StepMakesNoGarbage(c, Run(c, ops[..n]), ops[n]);
    }
  }

  /** Every file has a path in every run, uploads included. */
  lemma {:induction false} RunKeepsFilesOwned(c: Config, ops: seq<Op>)
    requires Sound(c)
    ensures FilesOwned(Run(c, ops))
    decreases |ops|
  {
    if ops != [] {
      var n := |ops| - 1;
      var s := Run(c, ops[..n]);
      RunKeepsFilesOwned(c, ops[..n]);
      RunKeepsInv(c, ops[..n]);
      match ops[n]
      case OpPutNar(h, data, now) =>
        if ParseNar(data).Ok? {
          PutTreeKeepsFilesOwned(c, s, h, ParseNar(data).value, now);
        }
      case OpAccess(hashes, now) =>
      case OpPutNarinfo(h, now) =>
      case OpStoreChunk(data) =>
      case OpEvict(h) => EvictKeepsFilesOwned(s, h);
    }
  }

  /** Without garbage the tables hold exactly what the paths share: a chunk is stored if and only if
      some file lists it, a file if and only if some path has it and it is not empty. */
  lemma TablesHoldWhatPathsShare(c: Config, s: Store, m: Catalog)
    requires Inv(c, s, m) && NoGarbage(s)
    ensures forall d :: d in s.chunks <==> Mentions(s.fileChunks, d)
    ensures forall x :: c.hash(x) in s.fileChunks <==> x != [] && exists p :: p in s.pathFiles && p.1 == c.hash(x)
  {
    assert forall d :: d in s.chunks ==> d !in Orphans(s);
    forall x | x != [] && exists p :: p in s.pathFiles && p.1 == c.hash(x)
      ensures c.hash(x) in s.fileChunks
    {
      var p :| p in s.pathFiles && p.1 == c.hash(x);
      assert (p.0, c.hash(x)) in s.pathFiles;
    }
  }

  // --- Conservation ---

  lemma {:induction false} SizeOfRemove(chunks: map<Digest, ChunkRow>, ds: set<Digest>, d: Digest)
    requires d in ds
    ensures SizeOf(chunks, ds) == (if d in chunks then chunks[d].size else 0) + SizeOf(chunks, ds - {d})
    decreases |ds|
  {
    var e :| e in ds && SizeOf(chunks, ds)
                        == (if e in chunks then chunks[e].size else 0) + SizeOf(chunks, ds - {e});
    if e != d {
      SizeOfRemove(chunks, ds - {e}, d);
      SizeOfRemove(chunks, ds - {d}, e);
      assert ds - {e} - {d} == ds - {d} - {e};
    }
  }

  lemma {:induction false} SizeOfUnion(chunks: map<Digest, ChunkRow>, a: set<Digest>, b: set<Digest>)
    requires a !! b
    ensures SizeOf(chunks, a + b) == SizeOf(chunks, a) + SizeOf(chunks, b)
    decreases |a|
  {
    if a == {} {
      assert a + b == b;
    } else {
      var d :| d in a;
      SizeOfRemove(chunks, a + b, d);
      SizeOfRemove(chunks, a, d);
      assert a + b - {d} == a - {d} + b;
      SizeOfUnion(chunks, a - {d}, b);
    }
  }

  lemma {:induction false} SizeOfAgree(m: map<Digest, ChunkRow>, n: map<Digest, ChunkRow>, ds: set<Digest>)
    requires forall d :: d in ds ==> (d in m <==> d in n) && (d in m ==> m[d] == n[d])
    ensures SizeOf(m, ds) == SizeOf(n, ds)
    decreases |ds|
  {
    if ds != {} {
      var d :| d in ds;
      SizeOfRemove(m, ds, d);
      SizeOfRemove(n, ds, d);
      SizeOfAgree(m, n, ds - {d});
    }
  }

  lemma {:induction false} SizeOfAbsent(chunks: map<Digest, ChunkRow>, ds: set<Digest>)
    requires ds !! chunks.Keys
    ensures SizeOf(chunks, ds) == 0
    decreases |ds|
  {
    if ds != {} {
      var d :| d in ds;
      SizeOfRemove(chunks, ds, d);
      SizeOfAbsent(chunks, ds - {d});
    }
  }

  /** What eviction reports as freed. */
  ghost function Freed(s: Store, h: Hash): nat { SizeOf(s.chunks, DeadChunks(s, h)) }

  lemma EvictConservesBytes(s: Store, h: Hash)
    ensures TotalBytes(s) == TotalBytes(Evict(s, h)) + Freed(s, h)
  {
    var all, dead := s.chunks.Keys, DeadChunks(s, h);
    assert (s.chunks - dead).Keys == all - dead;
    SizeOfAgree(s.chunks, s.chunks - dead, all - dead);
    assert all == (all - dead) + (all * dead);
    SizeOfUnion(s.chunks, all - dead, all * dead);
    assert dead == (all * dead) + (dead - all);
    SizeOfUnion(s.chunks, all * dead, dead - all);
    SizeOfAbsent(s.chunks, dead - all);
  }

  /** A store without paths holds nothing but chunks that no file lists. */
  lemma NoPathsOnlyOrphans(c: Config, s: Store, m: Catalog)
    requires Inv(c, s, m) && FilesOwned(s) && s.paths == map[]
    ensures s.fileChunks == map[] && s.chunks.Keys == Orphans(s)
  {
    assert s.pathFiles == {};
    assert s.fileChunks.Keys == {};
  }

  /** A store without garbage and without paths is empty of content. */
  lemma NoPathsNoBytes(c: Config, s: Store, m: Catalog)
    requires Inv(c, s, m) && NoGarbage(s) && s.paths == map[]
    ensures TotalBytes(s) == 0 && s.chunks == map[] && s.files == map[] && s.fileChunks == map[]
  {
    NoPathsOnlyOrphans(c, s, m);
    assert s.files.Keys == {};
  }

  /** The recorded sizes of the chunks that no file lists. */
  ghost function OrphanBytes(s: Store): nat { SizeOf(s.chunks, Orphans(s)) }

  lemma OrphansCount(s: Store)
    ensures OrphanBytes(s) <= TotalBytes(s)
  {
    var all, orphans := s.chunks.Keys, Orphans(s);
    assert all == orphans + (all - orphans);
    SizeOfUnion(s.chunks, orphans, all - orphans);
  }

  lemma EvictKeepsOrphanBytes(s: Store, h: Hash)
    ensures OrphanBytes(Evict(s, h)) == OrphanBytes(s)
  {
    EvictKeepsOrphans(s, h);
    SizeOfAgree(s.chunks, Evict(s, h).chunks, Orphans(s));
  }
}
