/** The reference-aware selection of paths to evict, as a function, and what it guarantees. */
module EvictionPlans {
  import opened Base
  import opened AccessOrder

  datatype PathEntry = PathEntry(hash: Hash, size: nat)

  /** All stored paths, oldest access first, and the references among paths. */
  datatype Graph = Graph(entries: seq<PathEntry>, refs: set<(Hash, Hash)>)

  ghost predicate DistinctHashes(es: seq<PathEntry>) {
    forall i, j :: 0 <= i < j < |es| ==> es[i].hash != es[j].hash
  }

  function HashesOf(es: seq<PathEntry>): set<Hash> {
    set e | e in es :: e.hash
  }

  /** A stored path other than `h`, not evicted, references `h`. */
  predicate Pinned(g: Graph, evicted: seq<Hash>, h: Hash) {
    exists p :: p in g.refs && p.1 == h && p.0 != h && p.0 in HashesOf(g.entries) && p.0 !in evicted
  }

  datatype Progress = Progress(evicted: seq<Hash>, freed: nat)

  /** One scan of `es`: every path that is not pinned goes, until enough is freed. */
  function Pass(g: Graph, es: seq<PathEntry>, need: nat, p: Progress): Progress
    decreases |es|
  {
    if es == [] || p.freed >= need then p
    else if es[0].hash in p.evicted || Pinned(g, p.evicted, es[0].hash) then Pass(g, es[1..], need, p)
    else Pass(g, es[1..], need, Progress(p.evicted + [es[0].hash], p.freed + es[0].size))
  }

  /** Scans until enough is freed or a scan evicts nothing. */
  function Rounds(g: Graph, need: nat, p: Progress): Progress
    requires Legal(g, need, p) && DistinctHashes(g.entries)
    decreases |g.entries| - |p.evicted|
  {
    if p.freed >= need then p
    else
      var next := Pass(g, g.entries, need, p);
      PassIsLegal(g, g.entries, need, p);
      EvictedAreEntries(g, need, next);
      if next.evicted == p.evicted then p else Rounds(g, need, next)
  }

  function Selection(g: Graph, need: nat): Progress
    requires DistinctHashes(g.entries)
  {
    Rounds(g, need, Progress([], 0))
  }

  // --- What holds after every single eviction ---

  function SizeIn(es: seq<PathEntry>, h: Hash): nat {
    if es == [] then 0 else if es[0].hash == h then es[0].size else SizeIn(es[1..], h)
  }

  function SumIn(es: seq<PathEntry>, hs: seq<Hash>): nat {
    if hs == [] then 0 else SumIn(es, hs[..|hs| - 1]) + SizeIn(es, hs[|hs| - 1])
  }

  function SumSizes(g: Graph, hs: seq<Hash>): nat { SumIn(g.entries, hs) }

  /** The k-th eviction was of a stored path that no path then left referenced, and was needed. */
  ghost predicate LegalAt(g: Graph, need: nat, evicted: seq<Hash>, k: nat)
    requires k < |evicted|
  {
    && evicted[k] in HashesOf(g.entries)
    && !Pinned(g, evicted[..k], evicted[k])
    && SumSizes(g, evicted[..k]) < need
  }

  /** Evictions are of distinct stored paths, referrers before what they reference; the bytes
      freed are those of the evicted paths; nothing is evicted once enough is freed. */
  ghost predicate Legal(g: Graph, need: nat, p: Progress) {
    && NoDuplicates(p.evicted)
    && (forall k :: 0 <= k < |p.evicted| ==> LegalAt(g, need, p.evicted, k))
    && p.freed == SumSizes(g, p.evicted)
  }

  lemma EarlierStaysLegal(g: Graph, need: nat, evicted: seq<Hash>, h: Hash, k: nat)
    requires k < |evicted| && LegalAt(g, need, evicted, k)
    ensures LegalAt(g, need, evicted + [h], k)
  {
    assert (evicted + [h])[..k] == evicted[..k];
  }

  lemma EvictionIsLegal(g: Graph, need: nat, p: Progress, h: Hash)
    requires Legal(g, need, p) && p.freed < need
    requires h in HashesOf(g.entries) && h !in p.evicted && !Pinned(g, p.evicted, h)
    ensures Legal(g, need, Progress(p.evicted + [h], p.freed + SizeIn(g.entries, h)))
  {
    var ev := p.evicted + [h];
    assert ev[..|p.evicted|] == p.evicted;
    forall k | 0 <= k < |ev|
      ensures LegalAt(g, need, ev, k)
    {
      if k < |p.evicted| {
        EarlierStaysLegal(g, need, p.evicted, h, k);
      }
    }
  }

  lemma {:induction false} SizeInAt(es: seq<PathEntry>, i: nat)
    requires DistinctHashes(es) && i < |es|
    ensures SizeIn(es, es[i].hash) == es[i].size
  {
    if i > 0 {
      assert es[1..][i - 1] == es[i];
      SizeInAt(es[1..], i - 1);
    }
  }

  lemma {:induction false} PassIsLegal(g: Graph, es: seq<PathEntry>, need: nat, p: Progress)
    requires DistinctHashes(g.entries) && Legal(g, need, p) && forall e :: e in es ==> e in g.entries
    ensures Legal(g, need, Pass(g, es, need, p)) && p.evicted <= Pass(g, es, need, p).evicted
    decreases |es|
  {
    if es != [] && p.freed < need {
      assert es[0] in g.entries;
      if es[0].hash in p.evicted || Pinned(g, p.evicted, es[0].hash) {
        PassIsLegal(g, es[1..], need, p);
      } else {
        EntryIsLegal(g, need, p, es[0]);
        PassIsLegal(g, es[1..], need, Progress(p.evicted + [es[0].hash], p.freed + es[0].size));
      }
    }
  }

  lemma EntryIsLegal(g: Graph, need: nat, p: Progress, e: PathEntry)
    requires DistinctHashes(g.entries) && Legal(g, need, p) && p.freed < need
    requires e in g.entries && e.hash !in p.evicted && !Pinned(g, p.evicted, e.hash)
    ensures Legal(g, need, Progress(p.evicted + [e.hash], p.freed + e.size))
  {
    var i :| 0 <= i < |g.entries| && g.entries[i] == e;
    SizeInAt(g.entries, i);
    EvictionIsLegal(g, need, p, e.hash);
  }

  lemma {:induction false} HashesOfSize(es: seq<PathEntry>)
    ensures |HashesOf(es)| <= |es|
  {
    if es != [] {
      HashesOfSize(es[1..]);
      assert HashesOf(es) == {es[0].hash} + HashesOf(es[1..]);
    }
  }

  lemma EvictedAreEntries(g: Graph, need: nat, p: Progress)
    requires Legal(g, need, p)
    ensures |p.evicted| <= |g.entries|
  {
    forall h | h in p.evicted
      ensures h in HashesOf(g.entries)
    {
      var k :| 0 <= k < |p.evicted| && p.evicted[k] == h;
      assert LegalAt(g, need, p.evicted, k);
    }
    DistinctWithin(p.evicted, HashesOf(g.entries));
    HashesOfSize(g.entries);
  }

  // --- What holds at the end ---

  /** Every path left is pinned by another path left. */
  ghost predicate Stuck(g: Graph, p: Progress) {
    forall e :: e in g.entries && e.hash !in p.evicted ==> Pinned(g, p.evicted, e.hash)
  }

  lemma {:induction false} PassOnlyGrows(g: Graph, es: seq<PathEntry>, need: nat, p: Progress)
    ensures |Pass(g, es, need, p).evicted| >= |p.evicted|
    decreases |es|
  {
    if es != [] && p.freed < need {
      PassOnlyGrows(g, es[1..], need, p);
      PassOnlyGrows(g, es[1..], need, Progress(p.evicted + [es[0].hash], p.freed + es[0].size));
    }
  }

  lemma {:induction false} IdlePassIsStuck(g: Graph, es: seq<PathEntry>, need: nat, p: Progress)
    requires p.freed < need && |Pass(g, es, need, p).evicted| == |p.evicted|
    ensures forall e :: e in es && e.hash !in p.evicted ==> Pinned(g, p.evicted, e.hash)
    decreases |es|
  {
    if es != [] {
      PassOnlyGrows(g, es[1..], need, Progress(p.evicted + [es[0].hash], p.freed + es[0].size));
      IdlePassIsStuck(g, es[1..], need, p);
    }
  }

  lemma {:induction false} RoundsEnd(g: Graph, need: nat, p: Progress)
    requires Legal(g, need, p) && DistinctHashes(g.entries)
    ensures Legal(g, need, Rounds(g, need, p))
    ensures Rounds(g, need, p).freed >= need || Stuck(g, Rounds(g, need, p))
    decreases |g.entries| - |p.evicted|
  {
    if p.freed < need {
      var next := Pass(g, g.entries, need, p);
      PassIsLegal(g, g.entries, need, p);
      EvictedAreEntries(g, need, next);
      if next.evicted == p.evicted {
        IdlePassIsStuck(g, g.entries, need, p);
      } else {
        RoundsEnd(g, need, next);
      }
    }
  }
}
