/** Bloom filters in front of the chunk and path tables: has_chunk and has_narinfo. */
module BloomGates {
  import opened Base
  import opened PathNames
  import opened NarFormat
  import opened NarCodec
  import opened Merkle
  import opened Blooms
  import opened CasStore
  import opened CasInvariant
  import opened CasEviction
  import opened Castores

  /** A filter together with what has been inserted into it. */
  class Gate<T(==)> {
    const keyOf: T -> Key
    var bloom: BloomFilter
    ghost var noted: set<T>

    ghost predicate Valid()
      reads this, bloom.bits
    {
      Holds(bloom, noted)
    }

    /** `b` is a filter for exactly `rows`. */
    ghost predicate Holds(b: BloomFilter, rows: set<T>)
      reads b.bits
    {
      b.Valid() && Fills(b.bits[..], b.numHashes, keyOf, rows)
    }

    /** What the filter says of `x`: yes if its positions are covered by what was inserted. */
    ghost predicate Says(x: T)
      requires bloom.numBits > 0
      reads this
    {
      Claimed(keyOf, noted, bloom.numHashes, bloom.numBits, x)
    }

    constructor (keyOf: T -> Key, numBytes: nat, numHashes: nat)
      requires numBytes > 0 && numHashes >= 1
      ensures Valid() && noted == {} && fresh(bloom) && fresh(bloom.bits) && this.keyOf == keyOf
      ensures bloom.numHashes == numHashes
    {
      this.keyOf := keyOf;
      bloom := new BloomFilter(numBytes, numHashes);
      noted := {};
      new;
      NothingFills(bloom.bits[..], numHashes, keyOf);
    }

    method Note(x: T)
      requires Valid()
      modifies this`noted, bloom.bits
      ensures Valid() && noted == old(noted) + {x}
    {
      OneMoreFills(bloom.bits[..], bloom.numHashes, keyOf, noted, x);
      bloom.Insert(keyOf(x));
      noted := noted + {x};
    }

    /** What was inserted is always found. */
    method MaybeContains(x: T) returns (r: bool)
      requires Valid()
      ensures (r <==> Says(x)) && (x in noted ==> r)
    {
      r := bloom.MaybeContains(keyOf(x));
      FilledMatches(bloom.bits[..], bloom.numHashes, keyOf, noted, x);
      if x in noted {
        MemberIsClaimed(keyOf, noted, bloom.numHashes, bloom.numBits, x);
      }
    }

    /** A new filter for the rows of a table. */
    method Build(rows: set<T>, numBytes: nat, numHashes: nat) returns (b: BloomFilter)
      requires numBytes > 0 && numHashes >= 1
      ensures Holds(b, rows) && fresh(b) && fresh(b.bits) && b.numHashes == numHashes
    {
      var filling := new Gate(keyOf, numBytes, numHashes);
      var todo := rows;
      while todo != {}
        invariant filling.Valid() && fresh(filling) && fresh(filling.bloom) && fresh(filling.bloom.bits)
        invariant filling.bloom.numHashes == numHashes
        invariant todo <= rows && filling.noted == rows - todo
        decreases |todo|
      {
        var x :| x in todo;
        filling.Note(x);
        todo := todo - {x};
      }
      b := filling.bloom;
    }

    /** The new filter takes the place of the old one, and with it everything noted meanwhile. */
    method Swap(b: BloomFilter, ghost rows: set<T>)
      requires Holds(b, rows)
      modifies this
      ensures Valid() && bloom == b && noted == rows
    {
      bloom := b;
      noted := rows;
    }
  }

  /** The chunks of what was put. */
  ghost function PutChunks(c: Config, parsed: Option<NarNode>): set<Digest> {
    if parsed.Some? then ChunkDigests(c, Contents(parsed.value)) else {}
  }

  /** The chunks that a request inserts into the filter. */
  ghost function ChunksNoted(c: Config, call: Call): set<Digest> {
    match call
    case CallPutNar(_, data, _) => PutChunks(c, TreeIn(data))
    case CallStoreChunk(data) => {c.hash(data)}
    case _ => {}
  }

  ghost function PathsNoted(call: Call): set<Hash> {
    match call
    case CallPutNar(filePath, data, _) => if TreeIn(data).Some? then {NarPathHash(filePath)} else {}
    case CallPutNarinfo(h, _) => {h}
    case _ => {}
  }

  function TreeIn(data: Bytes): Option<NarNode> {
    match ParseNar(data)
    case Ok(t) => Some(t)
    case Err(_) => None
  }

  ghost function AllChunksNoted(c: Config, calls: seq<Call>): set<Digest> {
    set call, d | call in calls && d in ChunksNoted(c, call) :: d
  }

  ghost function AllPathsNoted(calls: seq<Call>): set<Hash> {
    set call, h | call in calls && h in PathsNoted(call) :: h
  }

  lemma NotedSnoc(c: Config, calls: seq<Call>, call: Call)
    ensures AllChunksNoted(c, calls + [call]) == AllChunksNoted(c, calls) + ChunksNoted(c, call)
    ensures AllPathsNoted(calls + [call]) == AllPathsNoted(calls) + PathsNoted(call)
  {
  }

  lemma NotedAppend(c: Config, a: seq<Call>, b: seq<Call>)
    ensures AllChunksNoted(c, a + b) == AllChunksNoted(c, a) + AllChunksNoted(c, b)
    ensures AllPathsNoted(a + b) == AllPathsNoted(a) + AllPathsNoted(b)
  {
  }

  lemma {:induction false} AfterAppend(c: Config, s: Store, a: seq<Call>, b: seq<Call>)
    ensures After(c, s, a + b) == After(c, After(c, s, a), b)
    decreases |b|
  {
    if b == [] {
      assert a + b == a;
    } else {
      assert (a + b)[..|a + b| - 1] == a + b[..|b| - 1];
      AfterAppend(c, s, a, b[..|b| - 1]);
    }
  }

  /** Requests add no rows but those they insert into the filters. */
  lemma {:induction false} RowsAreNoted(c: Config, s: Store, m: Catalog, calls: seq<Call>)
    requires Sound(c) && Inv(c, s, m)
    ensures After(c, s, calls).chunks.Keys <= s.chunks.Keys + AllChunksNoted(c, calls)
    ensures After(c, s, calls).paths.Keys <= s.paths.Keys + AllPathsNoted(calls)
    ensures Inv(c, After(c, s, calls), AbsAfter(m, calls))
    decreases |calls|
  {
    if calls != [] {
      var n := |calls| - 1;
      RowsAreNoted(c, s, m, calls[..n]);
      assert calls == calls[..n] + [calls[n]];
      NotedSnoc(c, calls[..n], calls[n]);
      StepKeepsInv(c, After(c, s, calls[..n]), AbsAfter(m, calls[..n]), OpOf(calls[n]));
      NewRowsAreNoted(c, After(c, s, calls[..n]), calls[n]);
    }
  }

  lemma NewRowsAreNoted(c: Config, s: Store, call: Call)
    requires Sound(c) && TablesRight(c, s)
    ensures Step(c, s, OpOf(call)).chunks.Keys <= s.chunks.Keys + ChunksNoted(c, call)
    ensures Step(c, s, OpOf(call)).paths.Keys <= s.paths.Keys + PathsNoted(call)
  {
    match call
    case CallPutNar(filePath, data, now) => PutNarKeys(c, s, NarPathHash(filePath), data, now);
    case CallPutNarinfo(h, now) =>
    case CallStoreChunk(data) =>
    case CallAccess(hashes, now) =>
    case CallEvict(h) =>
  }

  /** What is stored after a warm-up and was not there when the filters were built was noted after the swap, or
      falls between the two. */
  lemma OnlyMeanwhileIsLost(c: Config, s: Store, m: Catalog, w: Meanwhile)
    requires Sound(c) && Inv(c, s, m)
    ensures var end := After(c, s, (w.chunks + w.between) + (w.paths + w.last));
            && end.chunks.Keys <= s.chunks.Keys + AllChunksNoted(c, w.between) + AllChunksNoted(c, w.paths + w.last)
                                  + AllChunksNoted(c, w.chunks)
            && end.paths.Keys <= After(c, s, w.chunks + w.between).paths.Keys + AllPathsNoted(w.last)
                                 + AllPathsNoted(w.paths)
  {
    var mid := After(c, s, w.chunks + w.between);
    RowsAreNoted(c, s, m, w.chunks + w.between);
    RowsAreNoted(c, mid, AbsAfter(m, w.chunks + w.between), w.paths + w.last);
    AfterAppend(c, s, w.chunks + w.between, w.paths + w.last);
    NotedAppend(c, w.chunks, w.between);
    NotedAppend(c, w.paths, w.last);
  }

  /** The requests that fall into a warm-up: before the chunk filter is swapped in, before the path filter is built,
      before it is swapped in, and before both are relied on. */
  datatype Meanwhile = Meanwhile(chunks: seq<Call>, between: seq<Call>, paths: seq<Call>, last: seq<Call>)

  class GatedCastore {
    const store: Castore
    const chunkGate: Gate<Digest>
    const pathGate: Gate<Hash>
    var ready: bool

    ghost predicate GatesValid()
      reads chunkGate, chunkGate.bloom.bits, pathGate, pathGate.bloom.bits
    {
      && chunkGate.Valid() && pathGate.Valid()
      && chunkGate.bloom.bits != pathGate.bloom.bits
    }

    /** Once the filters are warm, every row of either table has been inserted into its filter. */
    ghost predicate Gated()
      reads this, store, chunkGate, pathGate
    {
      ready ==> store.chunks.Keys <= chunkGate.noted && store.paths.Keys <= pathGate.noted
    }

    constructor (store: Castore, chunkKey: Digest -> Key, pathKey: Hash -> Key, numBytes: nat, numHashes: nat)
      requires store.Valid() && numBytes > 0 && numHashes >= 1
      ensures store.Valid() && GatesValid() && Gated() && !ready && this.store == store
      ensures fresh(chunkGate) && fresh(pathGate) && fresh(chunkGate.bloom.bits) && fresh(pathGate.bloom.bits)
    {
      this.store := store;
      chunkGate := new Gate(chunkKey, numBytes, numHashes);
      pathGate := new Gate(pathKey, numBytes, numHashes);
      ready := false;
    }

    // --- Asking ---

    /** The table's answer, except for a row that the filter does not know of. */
    method HasChunk(digest: Digest) returns (r: bool)
      requires GatesValid()
      ensures r <==> digest in store.chunks && (ready ==> chunkGate.Says(digest))
      ensures Gated() ==> (r <==> digest in store.chunks)
    {
      if ready {
        var maybe := chunkGate.MaybeContains(digest);
        if !maybe {
          return false;
        }
      }
      r := digest in store.chunks;
    }

    method HasNarinfo(h: Hash) returns (r: bool)
      requires GatesValid()
      ensures r <==> h in store.paths && (ready ==> pathGate.Says(h))
      ensures Gated() ==> (r <==> h in store.paths)
    {
      if ready {
        var maybe := pathGate.MaybeContains(h);
        if !maybe {
          return false;
        }
      }
      r := h in store.paths;
    }

    // --- The operations keep the gates ---

    method StoreChunkExternal(data: Bytes) returns (digest: Digest)
      requires store.Valid() && GatesValid()
      modifies store, chunkGate`noted, chunkGate.bloom.bits
      ensures store.Valid() && GatesValid() && (old(Gated()) ==> Gated())
      ensures store.State() == Step(store.cfg, old(store.State()), OpStoreChunk(data))
      ensures digest == store.cfg.hash(data) && chunkGate.noted == old(chunkGate.noted) + {digest}
    {
      digest := store.StoreChunkExternal(data);
      chunkGate.Note(digest);
    }

    method PutNar(filePath: string, data: Bytes, now: nat) returns (r: Result<bool, NarError>)
      requires store.Valid() && GatesValid()
      modifies store, chunkGate`noted, chunkGate.bloom.bits, pathGate`noted, pathGate.bloom.bits
      ensures store.Valid() && GatesValid() && (old(Gated()) ==> Gated())
      ensures store.State() == Step(store.cfg, old(store.State()), OpPutNar(NarPathHash(filePath), data, now))
      ensures chunkGate.noted == old(chunkGate.noted) + PutChunks(store.cfg, TreeIn(data))
      ensures pathGate.noted
              == old(pathGate.noted) + if TreeIn(data).Some? then {NarPathHash(filePath)} else {}
    {
      var parsed;
      r, parsed := PutUngated(filePath, data, now);
      NoteNar(NarPathHash(filePath), parsed);
    }

    /** The store's own part of `PutNar`; also returns the tree that was put, if any. */
    method PutUngated(filePath: string, data: Bytes, now: nat)
      returns (r: Result<bool, NarError>, parsed: Option<NarNode>)
      requires store.Valid()
      modifies store
      ensures store.Valid() && parsed == TreeIn(data)
      ensures store.State() == Step(store.cfg, old(store.State()), OpPutNar(NarPathHash(filePath), data, now))
      ensures store.chunks.Keys == old(store.chunks.Keys) + PutChunks(store.cfg, parsed)
      ensures store.paths.Keys == old(store.paths.Keys) + if parsed.Some? then {NarPathHash(filePath)} else {}
    {
      PutNarKeys(store.cfg, store.State(), NarPathHash(filePath), data, now);
      r := store.PutNar(filePath, data, now);
      var t := ParseNarBytes(data);
      parsed := if t.Ok? then Some(t.value) else None;
    }

    method NoteNar(h: Hash, parsed: Option<NarNode>)
      requires GatesValid()
      modifies chunkGate`noted, chunkGate.bloom.bits, pathGate`noted, pathGate.bloom.bits
      ensures GatesValid() && pathGate.noted == old(pathGate.noted) + if parsed.Some? then {h} else {}
      ensures chunkGate.noted == old(chunkGate.noted) + PutChunks(store.cfg, parsed)
    {
      if parsed.Some? {
        NoteChunks(parsed.value);
        pathGate.Note(h);
      }
    }

    method PutNarinfo(h: Hash, now: nat)
      requires store.Valid() && GatesValid()
      modifies store, pathGate`noted, pathGate.bloom.bits
      ensures store.Valid() && GatesValid() && (old(Gated()) ==> Gated())
      ensures store.State() == Step(store.cfg, old(store.State()), OpPutNarinfo(h, now))
      ensures pathGate.noted == old(pathGate.noted) + {h}
    {
      store.PutNarinfo(h, now);
      pathGate.Note(h);
    }

    /** The filters are left alone: an evicted row is a false positive from now on. */
    method EvictPath(h: Hash) returns (freed: nat)
      requires store.Valid() && GatesValid()
      modifies store
      ensures store.Valid() && GatesValid() && (old(Gated()) ==> Gated())
      ensures store.State() == Step(store.cfg, old(store.State()), OpEvict(h))
    {
      freed := store.EvictPath(h);
    }

    /** Accesses change no row that a filter knows of. */
    method UpdateAccess(hashes: seq<Hash>, now: nat)
      requires store.Valid() && GatesValid()
      modifies store
      ensures store.Valid() && GatesValid() && (old(Gated()) ==> Gated())
      ensures store.State() == Step(store.cfg, old(store.State()), OpAccess(hashes, now))
    {
      store.UpdateAccess(hashes, now);
    }

    /** Inserts the digest of every chunk of every file. */
    method NoteChunks(t: NarNode)
      requires GatesValid()
      modifies chunkGate`noted, chunkGate.bloom.bits
      ensures GatesValid() && chunkGate.noted == old(chunkGate.noted) + ChunkDigests(store.cfg, Contents(t))
      decreases t, 1
    {
      match t
      case Regular(_, data) => NotePieces(data);
      case Directory(entries) => NoteEntries(entries);
      case Symlink(_) => assert ChunkDigests(store.cfg, Contents(t)) == {};
    }

    method NoteEntries(es: seq<DirEntry>)
      requires GatesValid()
      modifies chunkGate`noted, chunkGate.bloom.bits
      ensures GatesValid() && chunkGate.noted == old(chunkGate.noted) + ChunkDigests(store.cfg, EntriesContents(es))
      decreases es, 0
    {
      var i := 0;
      assert es[0..] == es;
      while i < |es|
        invariant 0 <= i <= |es| && GatesValid()
        invariant chunkGate.noted + ChunkDigests(store.cfg, EntriesContents(es[i..]))
                  == old(chunkGate.noted) + ChunkDigests(store.cfg, EntriesContents(es))
      {
        assert es[i..][1..] == es[i + 1..];
        ChunkDigestsAppend(store.cfg, Contents(es[i].node), EntriesContents(es[i + 1..]));
        NoteChunks(es[i].node);
        i := i + 1;
      }
      assert ChunkDigests(store.cfg, EntriesContents(es[i..])) == {};
    }

    method NotePieces(data: Bytes)
      requires GatesValid()
      modifies chunkGate`noted, chunkGate.bloom.bits
      ensures GatesValid() && chunkGate.noted == old(chunkGate.noted) + ChunkDigests(store.cfg, [data])
    {
      var pieces := store.cfg.chunk(data);
      var i := 0;
      while i < |pieces|
        invariant 0 <= i <= |pieces| && GatesValid()
        invariant chunkGate.noted == old(chunkGate.noted) + set p | p in pieces[..i] :: store.cfg.hash(p)
      {
        assert pieces[..i + 1] == pieces[..i] + [pieces[i]];
        chunkGate.Note(store.cfg.hash(pieces[i]));
        i := i + 1;
      }
      assert pieces[..i] == pieces;
    }

    method Do(call: Call)
      requires store.Valid() && GatesValid()
      modifies store, chunkGate`noted, chunkGate.bloom.bits, pathGate`noted, pathGate.bloom.bits
      ensures store.Valid() && GatesValid()
      ensures store.State() == Step(store.cfg, old(store.State()), OpOf(call))
      ensures chunkGate.noted == old(chunkGate.noted) + ChunksNoted(store.cfg, call)
      ensures pathGate.noted == old(pathGate.noted) + PathsNoted(call)
    {
      match call
      case CallPutNar(filePath, data, now) => var r := PutNar(filePath, data, now);
      case CallPutNarinfo(h, now) => PutNarinfo(h, now);
      case CallStoreChunk(data) => var digest := StoreChunkExternal(data);
      case CallAccess(_, _) => DoUnnoted(call);
      case CallEvict(_) => DoUnnoted(call);
    }

    /** The requests that add no row. */
    method DoUnnoted(call: Call)
      requires store.Valid() && GatesValid() && (call.CallAccess? || call.CallEvict?)
      modifies store
      ensures store.Valid() && GatesValid()
      ensures store.State() == Step(store.cfg, old(store.State()), OpOf(call))
      ensures ChunksNoted(store.cfg, call) == {} && PathsNoted(call) == {}
    {
      match call
      case CallAccess(hashes, now) => UpdateAccess(hashes, now);
      case CallEvict(h) => var freed := EvictPath(h);
    }

    /** The effect of `calls` on tables and filters. */
    ghost predicate Did(calls: seq<Call>, before: Store, chunks: set<Digest>, paths: set<Hash>)
      reads this, store, chunkGate, pathGate
    {
      && store.State() == After(store.cfg, before, calls)
      && chunkGate.noted == chunks + AllChunksNoted(store.cfg, calls)
      && pathGate.noted == paths + AllPathsNoted(calls)
    }

    method DoNext(call: Call, ghost calls: seq<Call>, ghost before: Store, ghost chunks: set<Digest>,
                  ghost paths: set<Hash>)
      requires store.Valid() && GatesValid() && Did(calls, before, chunks, paths)
      modifies store, chunkGate`noted, chunkGate.bloom.bits, pathGate`noted, pathGate.bloom.bits
      ensures store.Valid() && GatesValid() && Did(calls + [call], before, chunks, paths)
    {
      assert (calls + [call])[..|calls|] == calls;
      NotedSnoc(store.cfg, calls, call);
      Do(call);
    }

    method DoAll(calls: seq<Call>)
      requires store.Valid() && GatesValid()
      modifies store, chunkGate`noted, chunkGate.bloom.bits, pathGate`noted, pathGate.bloom.bits
      ensures store.Valid() && GatesValid()
      ensures Did(calls, old(store.State()), old(chunkGate.noted), old(pathGate.noted))
    {
      ghost var before, chunks, paths := store.State(), chunkGate.noted, pathGate.noted;
      var i := 0;
      while i < |calls|
        invariant 0 <= i <= |calls| && store.Valid() && GatesValid() && Did(calls[..i], before, chunks, paths)
      {
        assert calls[..i + 1] == calls[..i] + [calls[i]];
        DoNext(calls[i], calls[..i], before, chunks, paths);
        i := i + 1;
      }
      assert calls[..i] == calls;
    }

    // --- Warming up: build and swap each filter, then rely on them ---

    /** The new filter has the chunks of the time it was built; what is noted before the swap is lost with the old. */
    method RebuildChunks(calls: seq<Call>, numBytes: nat, numHashes: nat)
      requires store.Valid() && GatesValid() && numBytes > 0 && numHashes >= 1
      modifies store, chunkGate, chunkGate.bloom.bits, pathGate`noted, pathGate.bloom.bits
      ensures store.Valid() && GatesValid() && fresh(chunkGate.bloom.bits)
      ensures store.State() == After(store.cfg, old(store.State()), calls)
      ensures chunkGate.noted == old(store.chunks.Keys) && chunkGate.bloom.numHashes == numHashes
    {
      ghost var rows := store.chunks.Keys;
      var b := chunkGate.Build(store.chunks.Keys, numBytes, numHashes);
      DoAll(calls);
      chunkGate.Swap(b, rows);
    }

    method RebuildPaths(calls: seq<Call>, numBytes: nat, numHashes: nat)
      requires store.Valid() && GatesValid() && numBytes > 0 && numHashes >= 1
      modifies store, chunkGate`noted, chunkGate.bloom.bits, pathGate, pathGate.bloom.bits
      ensures store.Valid() && GatesValid() && fresh(pathGate.bloom.bits)
      ensures store.State() == After(store.cfg, old(store.State()), calls)
      ensures chunkGate.noted == old(chunkGate.noted) + AllChunksNoted(store.cfg, calls)
      ensures pathGate.noted == old(store.paths.Keys) && pathGate.bloom.numHashes == numHashes
    {
      ghost var rows := store.paths.Keys;
      var b := pathGate.Build(store.paths.Keys, numBytes, numHashes);
      DoAll(calls);
      pathGate.Swap(b, rows);
    }

    method WarmChunks(calls: seq<Call>, after: seq<Call>, numBytes: nat, numHashes: nat)
      requires store.Valid() && GatesValid() && numBytes > 0 && numHashes >= 1
      modifies store, chunkGate, chunkGate.bloom.bits, pathGate`noted, pathGate.bloom.bits
      ensures store.Valid() && GatesValid() && fresh(chunkGate.bloom.bits)
      ensures store.State() == After(store.cfg, old(store.State()), calls + after)
      ensures chunkGate.noted == old(store.chunks.Keys) + AllChunksNoted(store.cfg, after)
      ensures chunkGate.bloom.numHashes == numHashes
    {
      AfterAppend(store.cfg, store.State(), calls, after);
      RebuildChunks(calls, numBytes, numHashes);
      DoAll(after);
    }

    method WarmPaths(calls: seq<Call>, after: seq<Call>, numBytes: nat, numHashes: nat)
      requires store.Valid() && GatesValid() && numBytes > 0 && numHashes >= 1
      modifies store, chunkGate`noted, chunkGate.bloom.bits, pathGate, pathGate.bloom.bits
      ensures store.Valid() && GatesValid() && fresh(pathGate.bloom.bits)
      ensures store.State() == After(store.cfg, old(store.State()), calls + after)
      ensures chunkGate.noted == old(chunkGate.noted) + AllChunksNoted(store.cfg, calls + after)
      ensures pathGate.noted == old(store.paths.Keys) + AllPathsNoted(after)
      ensures pathGate.bloom.numHashes == numHashes
    {
      AfterAppend(store.cfg, store.State(), calls, after);
      NotedAppend(store.cfg, calls, after);
      RebuildPaths(calls, numBytes, numHashes);
      DoAll(after);
    }

    /** The chunk filter ends up with the chunks at its build and those noted since its swap, and likewise the path
        filter: a row that comes between the two is in the table and not in the filter. */
    method Warmup(m: Meanwhile, chunkBytes: nat, pathBytes: nat, numHashes: nat)
      requires store.Valid() && GatesValid() && chunkBytes > 0 && pathBytes > 0 && numHashes >= 1
      modifies this, store, chunkGate, chunkGate.bloom.bits, pathGate, pathGate.bloom.bits
      ensures store.Valid() && GatesValid() && ready
      ensures store.State() == After(store.cfg, old(store.State()), (m.chunks + m.between) + (m.paths + m.last))
      ensures chunkGate.noted
              == old(store.chunks.Keys) + AllChunksNoted(store.cfg, m.between)
                 + AllChunksNoted(store.cfg, m.paths + m.last)
      ensures pathGate.noted
              == After(store.cfg, old(store.State()), m.chunks + m.between).paths.Keys + AllPathsNoted(m.last)
      ensures chunkGate.bloom.numHashes == numHashes && pathGate.bloom.numHashes == numHashes
    {
      AfterAppend(store.cfg, store.State(), m.chunks + m.between, m.paths + m.last);
      WarmChunks(m.chunks, m.between, chunkBytes, numHashes);
      WarmPaths(m.paths, m.last, pathBytes, numHashes);
      ready := true;
    }

    /** Nothing happens between building and swapping a filter. */
    method QuietWarmup(between: seq<Call>, last: seq<Call>, chunkBytes: nat, pathBytes: nat, numHashes: nat)
      requires store.Valid() && GatesValid() && chunkBytes > 0 && pathBytes > 0 && numHashes >= 1
      modifies this, store, chunkGate, chunkGate.bloom.bits, pathGate, pathGate.bloom.bits
      ensures GatesValid() && Gated() && ready
    {
      OnlyMeanwhileIsLost(store.cfg, store.State(), store.catalog, Meanwhile([], between, [], last));
      Warmup(Meanwhile([], between, [], last), chunkBytes, pathBytes, numHashes);
    }

    /** An upload and a metadata upload at the wrong moments: both rows are stored, and both are denied. */
    method WarmupAround(data: Bytes, h: Hash, now: nat, chunkBytes: nat, pathBytes: nat, numHashes: nat)
      requires store.Valid() && GatesValid() && chunkBytes > 0 && pathBytes > 0 && numHashes >= 1
      requires store.State() == EMPTY
      modifies this, store, chunkGate, chunkGate.bloom.bits, pathGate, pathGate.bloom.bits
      ensures GatesValid() && ready
      ensures store.cfg.hash(data) in store.chunks && !chunkGate.Says(store.cfg.hash(data))
      ensures h in store.paths && !pathGate.Says(h)
    {
      var uploads, metadata := [CallStoreChunk(data)], [CallPutNarinfo(h, now)];
      TwoCalls(store.cfg, uploads[0], metadata[0]);
      Warmup(Meanwhile(uploads, [], metadata, []), chunkBytes, pathBytes, numHashes);
      NothingIsClaimed(chunkGate.keyOf, numHashes, chunkGate.bloom.numBits, store.cfg.hash(data));
      NothingIsClaimed(pathGate.keyOf, numHashes, pathGate.bloom.numBits, h);
    }
  }

  lemma TwoCalls(c: Config, upload: Call, metadata: Call)
    requires upload.CallStoreChunk? && metadata.CallPutNarinfo?
    ensures var s, calls := EMPTY, ([upload] + []) + ([metadata] + []);
            && c.hash(upload.data) in After(c, s, calls).chunks && metadata.hash in After(c, s, calls).paths
            && After(c, s, [upload] + []).paths.Keys == {}
    ensures AllChunksNoted(c, []) == {} && AllChunksNoted(c, [metadata] + []) == {} && AllPathsNoted([]) == {}
  {
    assert [upload] + [] == [upload] && [metadata] + [] == [metadata];
    AfterAppend(c, EMPTY, [upload], [metadata]);
    assert [upload][..0] == [] && [metadata][..0] == [];
    assert After(c, EMPTY, [upload]) == Step(c, EMPTY, OpOf(upload));
    var s := After(c, EMPTY, [upload]);
    assert After(c, s, [metadata]) == Step(c, s, OpOf(metadata));
  }

  lemma NothingIsClaimed<T>(keyOf: T -> Key, k: nat, numBits: nat, x: T)
    requires k >= 1 && numBits > 0
    ensures !Claimed(keyOf, {}, k, numBits, x)
  {
    assert !HitByOne(keyOf, {}, k, numBits, Position(keyOf(x), 0, numBits));
  }

  lemma PutNarKeys(c: Config, s: Store, h: Hash, data: Bytes, now: nat)
    requires Sound(c) && TablesRight(c, s)
    ensures var s' := Step(c, s, OpPutNar(h, data, now));
            match ParseNar(data)
            case Ok(t) =>
              && s'.chunks.Keys == s.chunks.Keys + ChunkDigests(c, Contents(t))
              && s'.paths.Keys == s.paths.Keys + {h}
            case Err(_) => s' == s
  {
    if ParseNar(data).Ok? {
      IngestAdds(c, s, ParseNar(data).value);
    }
  }
}
