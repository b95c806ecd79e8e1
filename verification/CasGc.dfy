/** The castore's size-driven collector: evict the oldest paths until the chunks fit. */
module CasGc {
  import opened Base
  import opened AccessOrder
  import opened Merkle
  import opened CasStore
  import opened CasEviction
  import opened Castores

  function Access(paths: map<CasStore.Hash, PathRow>): map<CasStore.Hash, nat> {
    map h | h in paths :: paths[h].lastAccess
  }

  ghost predicate NotAfter(paths: map<CasStore.Hash, PathRow>, h: CasStore.Hash, k: CasStore.Hash) {
    h in paths && k in paths && paths[h].lastAccess <= paths[k].lastAccess
  }

  /** Every path once, by ascending time of the last access. */
  ghost predicate OldestFirst(paths: map<CasStore.Hash, PathRow>, order: seq<CasStore.Hash>) {
    && NoDuplicates(order)
    && (forall h :: h in paths <==> h in order)
    && forall i, j :: 0 <= i < j < |order| ==> NotAfter(paths, order[i], order[j])
  }

  lemma ListedOldestFirst(paths: map<CasStore.Hash, PathRow>, order: seq<CasStore.Hash>)
    requires FullListing(Access(paths), order)
    ensures OldestFirst(paths, order)
  {
    var access := Access(paths);
    assert forall h :: h in paths <==> h in access;
    forall i, j | 0 <= i < j < |order|
      ensures NotAfter(paths, order[i], order[j])
    {
      assert InOrder(access, order[i], order[j]);
    }
  }

  /** The store after evicting `hs` in turn. */
  function EvictAll(s: Store, hs: seq<CasStore.Hash>): Store {
    if hs == [] then s else Evict(EvictAll(s, hs[..|hs| - 1]), hs[|hs| - 1])
  }

  lemma {:induction false} EvictAllKeepsInv(c: Config, s: Store, m: Catalog, hs: seq<CasStore.Hash>)
    requires Inv(c, s, m)
    ensures Inv(c, EvictAll(s, hs), m - SetOf(hs))
    decreases |hs|
  {
    if hs == [] {
      assert m - SetOf(hs) == m;
    } else {
      var n := |hs| - 1;
      EvictAllKeepsInv(c, s, m, hs[..n]);
      EvictKeepsInv(c, EvictAll(s, hs[..n]), m - SetOf(hs[..n]), hs[n]);
      WithoutOneMore(m, hs, n);
      assert hs[..n + 1] == hs;
    }
  }

  lemma {:induction false} EvictAllRemovesPaths(s: Store, hs: seq<CasStore.Hash>)
    ensures EvictAll(s, hs).paths == s.paths - SetOf(hs)
    decreases |hs|
  {
    var gone := SetOf(hs);
    if hs == [] {
      assert s.paths - gone == s.paths;
    } else {
      var n := |hs| - 1;
      EvictAllRemovesPaths(s, hs[..n]);
      assert gone == SetOf(hs[..n]) + {hs[n]};
    }
  }

  lemma {:induction false} EvictAllKeepsOrphans(s: Store, hs: seq<CasStore.Hash>)
    requires FilesOwned(s)
    ensures FilesOwned(EvictAll(s, hs)) && OrphanBytes(EvictAll(s, hs)) == OrphanBytes(s)
    decreases |hs|
  {
    if hs != [] {
      var before := EvictAll(s, hs[..|hs| - 1]);
      EvictAllKeepsOrphans(s, hs[..|hs| - 1]);
      EvictKeepsFilesOwned(before, hs[|hs| - 1]);
      EvictKeepsOrphanBytes(before, hs[|hs| - 1]);
    }
  }

  /** Bytes freed by evicting the first `k` paths of `order`. */
  ghost function FreedBy(before: Store, order: seq<CasStore.Hash>, k: nat): int
    requires k <= |order|
  {
    TotalBytes(before) - TotalBytes(EvictAll(before, order[..k]))
  }

  /** The first `evicted` paths of `order` went: the shortest prefix that frees `need`, or all. */
  ghost predicate Collected(before: Store, after: Store, order: seq<CasStore.Hash>, evicted: nat, need: nat) {
    && OldestFirst(before.paths, order)
    && evicted <= |order| && after == EvictAll(before, order[..evicted])
    && (evicted == |order| || FreedBy(before, order, evicted) >= need)
    && forall k :: 0 <= k < evicted ==> FreedBy(before, order, k) < need
  }

  lemma EvictAllSnoc(s: Store, order: seq<CasStore.Hash>, k: nat)
    requires k < |order|
    ensures EvictAll(s, order[..k + 1]) == Evict(EvictAll(s, order[..k]), order[k])
  {
    assert order[..k + 1][..k] == order[..k];
  }

  /** A finished collection has met its target exactly if the chunks that no file lists fit into it: evicting
      everything frees everything else, and nothing frees those. */
  lemma CollectionMeetsTarget(c: Config, before: Store, after: Store, m: Catalog, order: seq<CasStore.Hash>,
                              evicted: nat, target: nat)
    requires FilesOwned(before) && Inv(c, after, m) && TotalBytes(before) > target
    requires Collected(before, after, order, evicted, TotalBytes(before) - target)
    ensures TotalBytes(after) <= target <==> OrphanBytes(before) <= target
  {
    EvictAllKeepsOrphans(before, order[..evicted]);
    OrphansCount(after);
    if evicted == |order| {
      assert order[..evicted] == order;
      EvictAllRemovesPaths(before, order);
      assert after.paths.Keys == {};
      NoPathsOnlyOrphans(c, after, m);
    }
  }

  /** No path that is kept was accessed before one that is gone. */
  ghost predicate OldestGone(before: Store, after: Store) {
    forall h, k :: h in before.paths && h !in after.paths && k in after.paths ==> NotAfter(before.paths, h, k)
  }

  lemma CollectedIsOldest(before: Store, after: Store, order: seq<CasStore.Hash>, evicted: nat, need: nat)
    requires Collected(before, after, order, evicted, need)
    ensures OldestGone(before, after)
  {
    EvictAllRemovesPaths(before, order[..evicted]);
    forall h, k | h in before.paths && h !in after.paths && k in after.paths
      ensures NotAfter(before.paths, h, k)
    {
      assert order == order[..evicted] + order[evicted..];
      var i :| 0 <= i < evicted && order[i] == h;
      var j :| evicted <= j < |order| && order[j] == k;
    }
  }

  /** Evicts the shortest sufficient prefix of the access order. */
  method CasMaybeRunGc(store: Castore, maxSize: nat, targetSize: nat)
    returns (freed: nat, evicted: nat, ghost order: seq<CasStore.Hash>)
    requires store.Valid()
    modifies store
    ensures store.Valid()
    ensures freed == TotalBytes(old(store.State())) - TotalBytes(store.State())
    ensures var total := TotalBytes(old(store.State()));
            if total <= maxSize || total <= targetSize
            then store.State() == old(store.State()) && store.catalog == old(store.catalog) && evicted == 0
            else Collected(old(store.State()), store.State(), order, evicted, total - targetSize)
    ensures OldestGone(old(store.State()), store.State())
    ensures TotalBytes(old(store.State())) > maxSize ==>
              (TotalBytes(store.State()) <= targetSize <==> OrphanBytes(old(store.State())) <= targetSize)
  {
    var total := store.TotalChunkBytes();
    OrphansCount(store.State());
    if total <= maxSize || total <= targetSize {
      return 0, 0, [];
    }
    ghost var before := store.State();
    var listed := OrderByAccess(Access(store.paths));
    order := listed;
    ListedOldestFirst(store.paths, order);
    ghost var held := store.catalog;
    freed, evicted := EvictOldest(store, listed, total - targetSize);
    EvictAllKeepsInv(store.cfg, before, held, order[..evicted]);
    EvictAllKeepsOrphans(before, order[..evicted]);
    CollectionMeetsTarget(store.cfg, before, store.State(), store.catalog, order, evicted, targetSize);
    CollectedIsOldest(before, store.State(), order, evicted, total - targetSize);
  }

  /** `evicted` paths of `order` are gone, each while the earlier ones had freed too little. */
  ghost predicate Collecting(before: Store, now: Store, order: seq<CasStore.Hash>, evicted: nat, need: nat) {
    && evicted <= |order| && now == EvictAll(before, order[..evicted])
    && forall k :: 0 <= k < evicted ==> FreedBy(before, order, k) < need
  }

  lemma CollectingSnoc(before: Store, now: Store, order: seq<CasStore.Hash>, evicted: nat, need: nat)
    requires Collecting(before, now, order, evicted, need)
    requires evicted < |order| && TotalBytes(before) - TotalBytes(now) < need
    ensures Collecting(before, Evict(now, order[evicted]), order, evicted + 1, need)
  {
    EvictAllSnoc(before, order, evicted);
  }

  lemma NothingCollected(before: Store, order: seq<CasStore.Hash>, need: nat)
    ensures Collecting(before, before, order, 0, need)
  {
  }

  lemma CollectingEnds(before: Store, now: Store, order: seq<CasStore.Hash>, evicted: nat, need: nat)
    requires OldestFirst(before.paths, order) && Collecting(before, now, order, evicted, need)
    requires evicted == |order| || TotalBytes(before) - TotalBytes(now) >= need
    ensures Collected(before, now, order, evicted, need)
  {
  }

  method EvictNext(store: Castore, order: seq<CasStore.Hash>, evicted: nat, toFree: nat, ghost before: Store)
    returns (bytes: nat)
    requires evicted < |order| && Collecting(before, store.State(), order, evicted, toFree)
    requires TotalBytes(before) - TotalBytes(store.State()) < toFree
    modifies store`paths, store`pathFiles, store`fileChunks, store`chunks, store`files, store`catalog
    ensures Collecting(before, store.State(), order, evicted + 1, toFree)
    ensures store.catalog == old(store.catalog) - {order[evicted]}
    ensures bytes == TotalBytes(old(store.State())) - TotalBytes(store.State())
  {
    CollectingSnoc(before, store.State(), order, evicted, toFree);
    bytes := store.EvictUnchecked(order[evicted]);
  }

  method EvictOldest(store: Castore, order: seq<CasStore.Hash>, toFree: nat) returns (freed: nat, evicted: nat)
    requires OldestFirst(store.paths, order)
    modifies store`paths, store`pathFiles, store`fileChunks, store`chunks, store`files, store`catalog
    ensures Collected(old(store.State()), store.State(), order, evicted, toFree)
    ensures store.catalog == old(store.catalog) - SetOf(order[..evicted])
    ensures freed == TotalBytes(old(store.State())) - TotalBytes(store.State())
  {
    freed, evicted := 0, 0;
    ghost var before := store.State();
    NothingCollected(before, order, toFree);
    while evicted < |order| && freed < toFree
      invariant evicted <= |order| && Collecting(before, store.State(), order, evicted, toFree)
      invariant store.catalog == old(store.catalog) - SetOf(order[..evicted])
      invariant freed == TotalBytes(before) - TotalBytes(store.State())
    {
      var bytes := EvictNext(store, order, evicted, toFree, before);
      WithoutOneMore(old(store.catalog), order, evicted);
      freed := freed + bytes;
      evicted := evicted + 1;
    }
    CollectingEnds(before, store.State(), order, evicted, toFree);
  }

  lemma WithoutOneMore(m: Catalog, order: seq<CasStore.Hash>, k: nat)
    requires k < |order|
    ensures m - SetOf(order[..k + 1]) == m - SetOf(order[..k]) - {order[k]}
  {
  }
}
