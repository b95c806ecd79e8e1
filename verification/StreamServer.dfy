/** Streaming from the store: what the server finds for each requested hash, and what a client that asks for a
    path ends up with. */
module StreamServers {
  import opened Base
  import opened PathNames
  import opened NarFormat
  import opened NarCodec
  import opened CasStore
  import opened CasReads
  import opened Castores
  import opened DeltaCaches
  import opened DeltaCacheRuns
  import opened Streams
  import opened StreamClients

  /** The url in a path's metadata. */
  function NarUrl(h: Hash): string { "nar/" + h + ".nar" }

  /** The hash under which the archive at that url is looked up. */
  function NarKey(h: Hash): Hash { NarPathHash(NarUrl(h)) }

  /** What is found for `h`: a cached delta first; a path without metadata is skipped; else an archive is begun,
      and it is complete unless the path is missing under its key or writing it fails. */
  ghost predicate Found(m: Catalog, deltas: Deltas, h: Hash, narSize: nat, item: Item) {
    match GetForTarget(deltas, h)
    case Some(delta) => item == Delta(h, delta)
    case None =>
      if h !in m then item == Unavailable(h)
      else
        item.Nar? && item.hash == h && item.narSize == narSize
        && Flatten(item.writes) == Begun(m, h) && (item.complete <==> Finished(m, h))
  }

  /** What is written for the archive of `h`. */
  function Begun(m: Catalog, h: Hash): Bytes {
    var o := AbsWritten(m, NarKey(h));
    if o.Some? then o.value.bytes else []
  }

  /** It is written without an error. */
  predicate Finished(m: Catalog, h: Hash) {
    var o := AbsWritten(m, NarKey(h));
    o.Some? && o.value.error.None?
  }

  /** `split` is how buffering divides what is written into writes. */
  method FindItem(store: Castore, deltas: DeltaCache, h: Hash, narSize: nat, split: Bytes -> seq<Bytes>)
    returns (item: Item)
    requires store.Valid() && forall b :: Flatten(split(b)) == b
    modifies store.dirCache
    ensures store.Valid() && Found(store.catalog, deltas.Value(), h, narSize, item)
  {
    var delta := deltas.GetDeltaForTarget(h);
    if delta.Some? {
      return Delta(h, delta.value);
    }
    if h !in store.paths {
      return Unavailable(h);
    }
    var w := new ByteSink();
    var written := store.WriteNarTo(NarUrl(h), w);
    item := Nar(h, narSize, split(w.buf), written == Ok(true));
    ghost var o := AbsWritten(store.catalog, NarKey(h));
    assert o.Some? ==> [] + o.value.bytes == o.value.bytes;
  }

  // --- Serving while the store and the delta cache change ---

  /** What happens before the next hash is served. */
  datatype Interlude = Interlude(calls: seq<Call>, deltas: seq<Insertion>)

  function InsertAll(d: Deltas, log: seq<Insertion>): Deltas {
    if log == [] then d
    else
      var n := |log| - 1;
      Insert(InsertAll(d, log[..n]), log[n].key, log[n].delta)
  }

  function CatalogAfter(m: Catalog, past: seq<Interlude>): Catalog {
    if past == [] then m else AbsAfter(CatalogAfter(m, past[..|past| - 1]), past[|past| - 1].calls)
  }

  function DeltasAfter(d: Deltas, past: seq<Interlude>): Deltas {
    if past == [] then d else InsertAll(DeltasAfter(d, past[..|past| - 1]), past[|past| - 1].deltas)
  }

  /** The item is what is found when its turn comes. */
  ghost predicate FoundInTurn(m: Catalog, d: Deltas, past: seq<Interlude>, h: Hash, narSize: nat, item: Item) {
    Found(CatalogAfter(m, past), DeltasAfter(d, past), h, narSize, item)
  }

  method InsertDeltas(deltas: DeltaCache, log: seq<Insertion>)
    requires Right(deltas.Value())
    modifies deltas
    ensures Right(deltas.Value()) && deltas.Value() == InsertAll(old(deltas.Value()), log)
  {
    ghost var d := deltas.Value();
    var i := 0;
    while i < |log|
      invariant 0 <= i <= |log| && Right(deltas.Value()) && deltas.Value() == InsertAll(d, log[..i])
    {
      assert log[..i + 1][..i] == log[..i];
      deltas.InsertDelta(log[i].key.base, log[i].key.target, log[i].delta);
      i := i + 1;
    }
    assert log[..i] == log;
  }

  method ServeNext(store: Castore, deltas: DeltaCache, h: Hash, narSize: nat, split: Bytes -> seq<Bytes>,
                   meanwhile: Interlude)
    returns (sent: seq<NarChunk>, ghost item: Item)
    requires store.Valid() && Right(deltas.Value()) && forall b :: Flatten(split(b)) == b
    modifies store, store.dirCache, deltas
    ensures store.Valid() && store.catalog == AbsAfter(old(store.catalog), meanwhile.calls)
    ensures Right(deltas.Value()) && deltas.Value() == InsertAll(old(deltas.Value()), meanwhile.deltas)
    ensures Found(store.catalog, deltas.Value(), h, narSize, item) && Frames(item, sent)
  {
    store.DoAll(meanwhile.calls);
    InsertDeltas(deltas, meanwhile.deltas);
    var found := FindItem(store, deltas, h, narSize, split);
    sent := StreamItem(found);
    item := found;
  }

  /** Each item is what was found in its turn. */
  ghost predicate Served(m: Catalog, d: Deltas, meanwhile: seq<Interlude>, hashes: seq<Hash>, narSize: Hash -> nat,
                         items: seq<Item>)
    requires |items| <= |hashes| == |meanwhile|
  {
    forall i :: 0 <= i < |items| ==>
      FoundInTurn(m, d, meanwhile[..i + 1], hashes[i], narSize(hashes[i]), items[i])
  }

  lemma ServedSnoc(m: Catalog, d: Deltas, meanwhile: seq<Interlude>, hashes: seq<Hash>, narSize: Hash -> nat,
                   items: seq<Item>, item: Item)
    requires |items| < |hashes| == |meanwhile| && Served(m, d, meanwhile, hashes, narSize, items)
    requires var n := |items|;
             FoundInTurn(m, d, meanwhile[..n + 1], hashes[n], narSize(hashes[n]), item)
    ensures Served(m, d, meanwhile, hashes, narSize, items + [item])
  {
  }

  lemma AfterNext(m: Catalog, d: Deltas, meanwhile: seq<Interlude>, i: nat)
    requires i < |meanwhile|
    ensures CatalogAfter(m, meanwhile[..i + 1]) == AbsAfter(CatalogAfter(m, meanwhile[..i]), meanwhile[i].calls)
    ensures DeltasAfter(d, meanwhile[..i + 1]) == InsertAll(DeltasAfter(d, meanwhile[..i]), meanwhile[i].deltas)
  {
    assert meanwhile[..i + 1][..i] == meanwhile[..i];
  }

  /** Serves the requested hashes in turn. */
  method ServeNars(store: Castore, deltas: DeltaCache, hashes: seq<Hash>, narSize: Hash -> nat,
                   split: Bytes -> seq<Bytes>, meanwhile: seq<Interlude>)
    returns (messages: seq<NarChunk>, ghost items: seq<Item>)
    requires store.Valid() && Right(deltas.Value()) && (forall b :: Flatten(split(b)) == b)
    requires |meanwhile| == |hashes|
    modifies store, store.dirCache, deltas
    ensures store.Valid() && Right(deltas.Value())
    ensures Streamed(items, messages) && |items| == |hashes|
    ensures Served(old(store.catalog), old(deltas.Value()), meanwhile, hashes, narSize, items)
  {
    messages, items := [], [];
    ghost var m, d := store.catalog, deltas.Value();
    ghost var frames: seq<seq<NarChunk>> := [];
    var i := 0;
    while i < |hashes|
      invariant 0 <= i <= |hashes| && |items| == i && store.Valid() && Right(deltas.Value())
      invariant store.catalog == CatalogAfter(m, meanwhile[..i]) && deltas.Value() == DeltasAfter(d, meanwhile[..i])
      invariant Framing(items, frames) && messages == Flatten(frames)
      invariant Served(m, d, meanwhile, hashes, narSize, items)
    {
      AfterNext(m, d, meanwhile, i);
      var sent, item := ServeNext(store, deltas, hashes[i], narSize(hashes[i]), split, meanwhile[i]);
      FramingSnoc(items, frames, item, sent);
      ServedSnoc(m, d, meanwhile, hashes, narSize, items, item);
      messages := messages + sent;
      items := items + [item];
      frames := frames + [sent];
      i := i + 1;
    }
  }

  // --- What the client ends up with ---

  /** A path's archive is looked up under the path's own hash exactly if the hash has no slash and no dot. */
  lemma KeyIsOwnHash(h: Hash)
    ensures NarKey(h) == h <==> '/' !in h && '.' !in h
  {
    var last := AfterLast(h, '/');
    assert NarUrl(h) == ("nar/" + h) + ".nar";
    AfterLastOfTail("nar/" + h, ".nar", '/');
    AfterLastOfHead("nar/", h, '/');
    BeforeFirstOf(last, ".nar", '.');
    assert NarKey(h) == BeforeFirst(last, '.');
    AfterLastIsAll(h, '/');
    BeforeFirstIsAll(last, '.');
  }

  lemma OpeningIsCutAway(item: Item)
    requires item.Nar? && !item.complete && |Flatten(item.writes)| < NAR_CHUNK_SIZE
    ensures PayloadOf(item) == []
  {
  }

  predicate Held(m: Catalog, h: Hash) { h in m && m[h].Holding? }

  lemma BegunExact(m: Catalog, h: Hash)
    ensures Finished(m, h) <==> Held(m, NarKey(h))
    ensures Finished(m, h) ==> AbsRead(m, NarKey(h)) == Ok(Some(Begun(m, h)))
    ensures !Finished(m, h) ==> |Begun(m, h)| < NAR_CHUNK_SIZE && forall nar :: AbsRead(m, NarKey(h)) != Ok(Some(nar))
  {
    assert |Str(MAGIC)| == 24;
  }

  /** Of a path without a cached delta, the client stages the archive that the store reads back exactly if the
      store knows the path and holds its tree.  For a path that is known but holds no tree, an empty file is
      staged as a finished archive.  Whatever else is requested, or changes meanwhile, does not matter. */
  lemma StagedIffHeld(m: Catalog, deltas: Deltas, narSize: nat, items: seq<Item>, frames: seq<seq<NarChunk>>,
                      entries: map<string, PathEntry>, applyDelta: Patcher, i: nat)
    requires Framing(items, frames) && DistinctHashes(items) && DistinctUrls(entries)
    requires i < |items| && items[i].hash in entries
    requires GetForTarget(deltas, items[i].hash).None? && Found(m, deltas, items[i].hash, narSize, items[i])
    ensures var h := items[i].hash;
            var staged := StageAll(entries, applyDelta, ReceiveAll(START, Flatten(frames)).received);
            var url, held := entries[h].url, Held(m, NarKey(h));
            && (url in staged && AbsRead(m, NarKey(h)) == Ok(Some(staged[url])) <==> h in m && held)
            && (h in m && !held ==> url in staged && staged[url] == [])
  {
    var h := items[i].hash;
    BegunExact(m, h);
    if h !in m {
      UnavailableIsNotStaged(items, frames, entries, applyDelta, i);
    } else {
      EveryPathIsStaged(items, frames, entries, applyDelta, i);
      assert Staged(entries, applyDelta, Transfer(h, PayloadOf(items[i]), false)) == Some(PayloadOf(items[i]));
      if !Finished(m, h) {
        OpeningIsCutAway(items[i]);
      }
    }
  }
}
